/**
 internal/bypass/adaptive.go: the strategy cache, least-recently-used order with a time to live.
 The cache is a map of entries and a recency list of the same entries.
 */
module LruCache {
  datatype Strategy = WrongSeq | Fragment | DesyncBadCS | DesyncTTL | Unknown

  datatype Slot = Slot(key: string, strategy: Strategy, expiresAt: int)

  datatype Hit = Miss | Hit(strategy: Strategy)

  // ---- the cache as a list of slots, most recent first ----

  function Keys(c: seq<Slot>): set<string>
  {
    if c == [] then {} else {c[0].key} + Keys(c[1..])
  }

  function Find(c: seq<Slot>, key: string): Slot
    requires key in Keys(c)
  {
    if c[0].key == key then c[0] else Find(c[1..], key)
  }

  function Without(c: seq<Slot>, key: string): seq<Slot>
  {
    if c == [] then [] else if c[0].key == key then c[1..] else [c[0]] + Without(c[1..], key)
  }

  /** What get returns, and the list it leaves. */
  function Lookup(c: seq<Slot>, key: string, now: int): Hit
  {
    if key !in Keys(c) || now > Find(c, key).expiresAt then Miss else Hit(Find(c, key).strategy)
  }

  function AfterGet(c: seq<Slot>, key: string, now: int): seq<Slot>
  {
    if key !in Keys(c) then c
    else if now > Find(c, key).expiresAt then Without(c, key)
    else [Find(c, key)] + Without(c, key)
  }

  /** The list without its oldest slot when it is full. */
  function Trimmed(c: seq<Slot>, cap: nat): seq<Slot>
  {
    if |c| >= cap && c != [] then c[..|c| - 1] else c
  }

  function AfterSet(c: seq<Slot>, cap: nat, ttl: int, key: string, s: Strategy, now: int): seq<Slot>
  {
    [Slot(key, s, now + ttl)] + if key in Keys(c) then Without(c, key) else Trimmed(c, cap)
  }

  ghost predicate Distinct(c: seq<Slot>)
  {
    c == [] || (c[0].key !in Keys(c[1..]) && Distinct(c[1..]))
  }

  lemma {:induction false} WithoutKeys(c: seq<Slot>, key: string)
    requires Distinct(c)
    ensures Keys(Without(c, key)) == Keys(c) - {key} && Distinct(Without(c, key))
    ensures |Without(c, key)| == if key in Keys(c) then |c| - 1 else |c|
  {
    if c != [] && c[0].key != key {
      WithoutKeys(c[1..], key);
      assert Without(c, key)[1..] == Without(c[1..], key);
    }
  }

  lemma {:induction false} InitKeys(c: seq<Slot>)
    requires Distinct(c) && c != []
    ensures Distinct(c[..|c| - 1]) && Keys(c) == Keys(c[..|c| - 1]) + {c[|c| - 1].key}
    ensures c[|c| - 1].key !in Keys(c[..|c| - 1])
  {
    var init := c[..|c| - 1];
    if |c| > 1 {
      InitKeys(c[1..]);
      assert init[1..] == c[1..][..|c| - 2];
    } else {
      assert c[1..] == [] && init == [];
    }
  }

  lemma {:induction false} KeyCount(c: seq<Slot>)
    requires Distinct(c)
    ensures |Keys(c)| == |c|
  {
    if c != [] { KeyCount(c[1..]); }
  }

  // ---- runs ----

  datatype Op = Get(key: string, now: int) | Set(key: string, strategy: Strategy, now: int)

  datatype Put = Put(strategy: Strategy, time: int)

  /**
   The list after a run, with the history the list does not keep: every set or hit key in order
   (`touches`) and the latest set of every key (`latest`).
   */
  datatype State = State(slots: seq<Slot>, touches: seq<string>, latest: map<string, Put>)

  function Step(cap: nat, ttl: int, s: State, op: Op): State
  {
    match op
    case Get(key, now) =>
      State(AfterGet(s.slots, key, now),
            if Lookup(s.slots, key, now).Hit? then s.touches + [key] else s.touches, s.latest)
    case Set(key, strategy, now) =>
      State(AfterSet(s.slots, cap, ttl, key, strategy, now), s.touches + [key],
            s.latest[key := Put(strategy, now)])
  }

  function Run(cap: nat, ttl: int, ops: seq<Op>): State
  {
    if ops == [] then State([], [], map[]) else Step(cap, ttl, Run(cap, ttl, ops[..|ops| - 1]), ops[|ops| - 1])
  }

  /** The keys touched since `key` last was (all of them, when it never was). */
  function Since(touches: seq<string>, key: string): set<string>
  {
    if touches == [] || touches[|touches| - 1] == key then {}
    else Since(touches[..|touches| - 1], key) + {touches[|touches| - 1]}
  }

  lemma SinceSnoc(touches: seq<string>, t: string, key: string)
    ensures Since(touches + [t], key) == if t == key then {} else Since(touches, key) + {t}
  {
    assert (touches + [t])[..|touches|] == touches;
  }

  /** Every slot ahead of another was touched since the other last was. */
  ghost predicate Ordered(c: seq<Slot>, touches: seq<string>)
  {
    c == [] || ((forall k :: k in Keys(c[1..]) ==> c[0].key in Since(touches, k)) && Ordered(c[1..], touches))
  }

  ghost predicate Current(slot: Slot, latest: map<string, Put>, ttl: int)
  {
    && slot.key in latest && slot.strategy == latest[slot.key].strategy
    && slot.expiresAt == latest[slot.key].time + ttl
  }

  ghost predicate AllCurrent(c: seq<Slot>, latest: map<string, Put>, ttl: int)
  {
    forall k :: k in Keys(c) ==> Current(Find(c, k), latest, ttl)
  }

  /** A set key that is gone has expired, or at least `cap` other keys were touched since. */
  ghost predicate Justified(s: State, cap: nat, ttl: int, clock: int, key: string)
  {
    key in s.latest && key !in Keys(s.slots) ==>
      s.latest[key].time + ttl < clock || |Since(s.touches, key)| >= cap
  }

  ghost predicate Invariant(s: State, cap: nat, ttl: int, clock: int)
  {
    && Distinct(s.slots) && |s.slots| <= cap
    && Ordered(s.slots, s.touches)
    && AllCurrent(s.slots, s.latest, ttl)
    && forall key :: Justified(s, cap, ttl, clock, key)
  }

  // ---- recency ----

  /** Touching a key outside the list keeps the list ordered. */
  lemma {:induction false} OrderedSurvives(c: seq<Slot>, touches: seq<string>, t: string)
    requires Ordered(c, touches) && t !in Keys(c)
    ensures Ordered(c, touches + [t])
  {
    if c != [] {
      OrderedSurvives(c[1..], touches, t);
      forall k | k in Keys(c[1..]) ensures c[0].key in Since(touches + [t], k) { SinceSnoc(touches, t, k); }
    }
  }

  lemma OrderedFront(c: seq<Slot>, touches: seq<string>, slot: Slot)
    requires Ordered(c, touches) && slot.key !in Keys(c)
    ensures Ordered([slot] + c, touches + [slot.key])
  {
    OrderedSurvives(c, touches, slot.key);
    assert ([slot] + c)[1..] == c;
    forall k | k in Keys(c) ensures slot.key in Since(touches + [slot.key], k) { SinceSnoc(touches, slot.key, k); }
  }

  lemma {:induction false} OrderedWithout(c: seq<Slot>, touches: seq<string>, key: string)
    requires Ordered(c, touches) && Distinct(c)
    ensures Ordered(Without(c, key), touches)
  {
    if c != [] && c[0].key != key {
      OrderedWithout(c[1..], touches, key);
      WithoutKeys(c[1..], key);
      assert Without(c, key)[1..] == Without(c[1..], key);
    }
  }

  lemma {:induction false} OrderedInit(c: seq<Slot>, touches: seq<string>)
    requires Ordered(c, touches) && Distinct(c) && c != []
    ensures Ordered(c[..|c| - 1], touches)
    ensures Keys(c[..|c| - 1]) <= Since(touches, c[|c| - 1].key)
  {
    var init, last := c[..|c| - 1], c[|c| - 1].key;
    if |c| > 1 {
      OrderedInit(c[1..], touches);
      InitKeys(c[1..]);
      assert init[1..] == c[1..][..|c| - 2];
      assert last in Keys(c[1..]);
    } else {
      assert init == [];
    }
  }

  lemma {:induction false} FindWithout(c: seq<Slot>, key: string, k: string)
    requires Distinct(c) && k in Keys(c) && k != key
    ensures k in Keys(Without(c, key)) && Find(Without(c, key), k) == Find(c, k)
  {
    WithoutKeys(c, key);
    if c[0].key == key {
    } else if c[0].key == k {
    } else {
      FindWithout(c[1..], key, k);
      assert Without(c, key)[1..] == Without(c[1..], key);
    }
  }

  lemma {:induction false} FindInit(c: seq<Slot>, k: string)
    requires c != [] && k in Keys(c[..|c| - 1])
    ensures k in Keys(c) && Find(c[..|c| - 1], k) == Find(c, k)
  {
    var init := c[..|c| - 1];
    if init[0].key != k {
      assert init[1..] == c[1..][..|c| - 2];
      FindInit(c[1..], k);
    }
  }

  lemma {:induction false} FindHasKey(c: seq<Slot>, k: string)
    requires k in Keys(c)
    ensures Find(c, k).key == k
  {
    if c[0].key != k { FindHasKey(c[1..], k); }
  }

  lemma FrontIsFound(slot: Slot, c: seq<Slot>, k: string)
    ensures Keys([slot] + c) == {slot.key} + Keys(c)
    ensures slot.key == k ==> Find([slot] + c, k) == slot
    ensures slot.key != k && k in Keys(c) ==> Find([slot] + c, k) == Find(c, k)
    ensures Distinct(c) && slot.key !in Keys(c) ==> Distinct([slot] + c)
  {
    assert ([slot] + c)[1..] == c;
  }

  // ---- every step keeps the invariant ----

  /** Moving or pushing a slot to the front of a list that lacks its key. */
  lemma FrontKeeps(rest: seq<Slot>, slot: Slot, touches: seq<string>, latest: map<string, Put>, ttl: int)
    requires Distinct(rest) && slot.key !in Keys(rest) && Ordered(rest, touches)
    requires forall k :: k in Keys(rest) ==> Current(Find(rest, k), latest, ttl)
    requires Current(slot, latest, ttl)
    ensures var c := [slot] + rest;
            && Distinct(c) && Ordered(c, touches + [slot.key]) && AllCurrent(c, latest, ttl)
            && Keys(c) == {slot.key} + Keys(rest)
  {
    OrderedFront(rest, touches, slot);
    FrontIsFound(slot, rest, slot.key);
    forall k | k in Keys(rest) ensures Current(Find([slot] + rest, k), latest, ttl) {
      FrontIsFound(slot, rest, k);
    }
  }

  lemma GetKeeps(cap: nat, ttl: int, s: State, key: string, now: int, clock: int)
    requires Invariant(s, cap, ttl, clock) && clock <= now
    ensures Invariant(Step(cap, ttl, s, Get(key, now)), cap, ttl, now)
  {
    hide Ordered, Distinct, Current, Keys, Find, Without, Since;
    var s' := Step(cap, ttl, s, Get(key, now));
    if key in Keys(s.slots) {
      var rest := Without(s.slots, key);
      WithoutKeys(s.slots, key);
      OrderedWithout(s.slots, s.touches, key);
      forall k | k in Keys(rest) ensures Current(Find(rest, k), s.latest, ttl) { FindWithout(s.slots, key, k); }
      FindHasKey(s.slots, key);
      if now <= Find(s.slots, key).expiresAt { FrontKeeps(rest, Find(s.slots, key), s.touches, s.latest, ttl); }
    }
    forall k ensures Justified(s', cap, ttl, now, k) {
      assert Justified(s, cap, ttl, clock, k);
      SinceGrows(s.touches, key, k);
      if k == key && key in Keys(s.slots) { CurrentMeans(Find(s.slots, key), s.latest, ttl); }
    }
  }

  lemma CurrentMeans(slot: Slot, latest: map<string, Put>, ttl: int)
    requires Current(slot, latest, ttl)
    ensures slot.key in latest && slot.expiresAt == latest[slot.key].time + ttl
    ensures slot.strategy == latest[slot.key].strategy
  {
  }

  lemma SinceGrows(touches: seq<string>, t: string, k: string)
    ensures k != t ==> |Since(touches + [t], k)| >= |Since(touches, k)|
  {
    SinceSnoc(touches, t, k);
    if k != t { SubsetSize(Since(touches, k), Since(touches + [t], k)); }
  }

  lemma {:induction false} SubsetSize<T>(a: set<T>, b: set<T>)
    requires a <= b
    ensures |a| <= |b|
  {
    assert |b| == |a| + |b - a| by { assert b == a + (b - a) && a !! (b - a); }
  }

  /** The slot dropped from a full list has seen `cap` other keys since its last touch. */
  lemma EvictionIsDeserved(c: seq<Slot>, cap: nat, touches: seq<string>, key: string)
    requires Distinct(c) && Ordered(c, touches) && c != [] && |c| >= cap && key !in Keys(c)
    ensures |Since(touches + [key], c[|c| - 1].key)| >= cap
  {
    var init, last := c[..|c| - 1], c[|c| - 1].key;
    InitKeys(c);
    OrderedInit(c, touches);
    KeyCount(init);
    SinceSnoc(touches, key, last);
    SubsetSize(Keys(init) + {key}, Since(touches + [key], last));
  }

  lemma SetKeepsExisting(cap: nat, ttl: int, s: State, key: string, strategy: Strategy, now: int, clock: int)
    requires Invariant(s, cap, ttl, clock) && clock <= now && key in Keys(s.slots)
    ensures Invariant(Step(cap, ttl, s, Set(key, strategy, now)), cap, ttl, now)
  {
    hide Ordered, Distinct, Keys, Find, Without, Since;
    var s' := Step(cap, ttl, s, Set(key, strategy, now));
    var rest := Without(s.slots, key);
    WithoutKeys(s.slots, key);
    OrderedWithout(s.slots, s.touches, key);
    forall k | k in Keys(rest) ensures Current(Find(rest, k), s'.latest, ttl) {
      FindWithout(s.slots, key, k);
      FindHasKey(s.slots, k);
    }
    FrontKeeps(rest, Slot(key, strategy, now + ttl), s.touches, s'.latest, ttl);
    forall k ensures Justified(s', cap, ttl, now, k) {
      assert Justified(s, cap, ttl, clock, k);
      SinceGrows(s.touches, key, k);
    }
  }

  lemma TrimKeeps(c: seq<Slot>, cap: nat, touches: seq<string>)
    requires Distinct(c) && Ordered(c, touches) && |c| <= cap && cap >= 1
    ensures var t := Trimmed(c, cap);
            && Distinct(t) && Ordered(t, touches) && |t| < cap && Keys(t) <= Keys(c)
            && forall k :: k in Keys(t) ==> Find(t, k) == Find(c, k)
  {
    if |c| >= cap {
      InitKeys(c);
      OrderedInit(c, touches);
      forall k | k in Keys(c[..|c| - 1]) ensures Find(c[..|c| - 1], k) == Find(c, k) { FindInit(c, k); }
    }
  }

  lemma SetKeepsNew(cap: nat, ttl: int, s: State, key: string, strategy: Strategy, now: int, clock: int)
    requires Invariant(s, cap, ttl, clock) && clock <= now && key !in Keys(s.slots) && cap >= 1
    ensures Invariant(Step(cap, ttl, s, Set(key, strategy, now)), cap, ttl, now)
  {
    hide Ordered, Distinct, Keys, Find, Since;
    var s' := Step(cap, ttl, s, Set(key, strategy, now));
    var rest := Trimmed(s.slots, cap);
    TrimKeeps(s.slots, cap, s.touches);
    forall k | k in Keys(rest) ensures Current(Find(rest, k), s'.latest, ttl) { FindHasKey(s.slots, k); }
    FrontKeeps(rest, Slot(key, strategy, now + ttl), s.touches, s'.latest, ttl);
    forall k ensures Justified(s', cap, ttl, now, k) {
      assert Justified(s, cap, ttl, clock, k);
      SinceGrows(s.touches, key, k);
      if |s.slots| >= cap {
        InitKeys(s.slots);
        EvictionIsDeserved(s.slots, cap, s.touches, key);
      }
    }
  }

  ghost predicate ClockAdvances(ops: seq<Op>)
  {
    forall i, j :: 0 <= i <= j < |ops| ==> ops[i].now <= ops[j].now
  }

  /** Distinct keys, size, recency order, freshness and justified absence hold after every run. */
  lemma {:induction false} RunKeepsInvariant(cap: nat, ttl: int, ops: seq<Op>, clock: int)
    requires cap >= 1 && ClockAdvances(ops) && (ops != [] ==> ops[|ops| - 1].now <= clock)
    ensures Invariant(Run(cap, ttl, ops), cap, ttl, clock)
  {
    if ops != [] {
      hide Invariant, Step;
      var init, op := ops[..|ops| - 1], ops[|ops| - 1];
      RunKeepsInvariant(cap, ttl, init, op.now);
      var s := Run(cap, ttl, init);
      if op.Get? {
        GetKeeps(cap, ttl, s, op.key, op.now, op.now);
      } else if op.key in Keys(s.slots) {
        SetKeepsExisting(cap, ttl, s, op.key, op.strategy, op.now, op.now);
      } else {
        SetKeepsNew(cap, ttl, s, op.key, op.strategy, op.now, op.now);
      }
      InvariantAges(Run(cap, ttl, ops), cap, ttl, op.now, clock);
    }
  }

  lemma InvariantAges(s: State, cap: nat, ttl: int, clock: int, later: int)
    requires Invariant(s, cap, ttl, clock) && clock <= later
    ensures Invariant(s, cap, ttl, later)
  {
    forall k ensures Justified(s, cap, ttl, later, k) { assert Justified(s, cap, ttl, clock, k); }
  }

  /** A hit after any run is the key's latest set value, no older than its time to live. */
  lemma HitIsLatest(cap: nat, ttl: int, ops: seq<Op>, key: string, now: int)
    requires cap >= 1 && ClockAdvances(ops) && (ops != [] ==> ops[|ops| - 1].now <= now)
    requires Lookup(Run(cap, ttl, ops).slots, key, now).Hit?
    ensures var s := Run(cap, ttl, ops);
            && key in s.latest && now <= s.latest[key].time + ttl
            && Lookup(s.slots, key, now) == Hit(s.latest[key].strategy)
  {
    RunKeepsInvariant(cap, ttl, ops, now);
    FindHasKey(Run(cap, ttl, ops).slots, key);
  }

  /** A live key is found unless at least `cap` other keys were set or hit since its own last touch. */
  lemma LiveKeyIsFound(cap: nat, ttl: int, ops: seq<Op>, key: string, now: int)
    requires cap >= 1 && ClockAdvances(ops) && (ops != [] ==> ops[|ops| - 1].now <= now)
    requires var s := Run(cap, ttl, ops);
             key in s.latest && now <= s.latest[key].time + ttl && |Since(s.touches, key)| < cap
    ensures Lookup(Run(cap, ttl, ops).slots, key, now) == Hit(Run(cap, ttl, ops).latest[key].strategy)
  {
    var s := Run(cap, ttl, ops);
    RunKeepsInvariant(cap, ttl, ops, now);
    assert Justified(s, cap, ttl, now, key);
    FindHasKey(s.slots, key);
  }

  // ---- what one operation does to every key ----

  lemma AfterGetKeys(c: seq<Slot>, key: string, now: int)
    requires Distinct(c)
    ensures Distinct(AfterGet(c, key, now)) && Keys(AfterGet(c, key, now)) <= Keys(c)
    ensures forall k :: k in Keys(AfterGet(c, key, now)) ==> Find(AfterGet(c, key, now), k) == Find(c, k)
  {
    hide Distinct, Keys, Find, Without;
    if key in Keys(c) {
      var rest := Without(c, key);
      WithoutKeys(c, key);
      FindHasKey(c, key);
      FrontIsFound(Find(c, key), rest, key);
      forall k | k in Keys(rest) ensures Find(rest, k) == Find(c, k) && k != key {
        FindWithout(c, key, k);
      }
      forall k | k in Keys([Find(c, key)] + rest) ensures Find([Find(c, key)] + rest, k) == Find(c, k) {
        FrontIsFound(Find(c, key), rest, k);
      }
    }
  }

  lemma AfterSetKeys(c: seq<Slot>, cap: nat, ttl: int, key: string, s: Strategy, now: int)
    requires Distinct(c)
    ensures var r := AfterSet(c, cap, ttl, key, s, now);
            && Distinct(r) && key in Keys(r) && Find(r, key) == Slot(key, s, now + ttl)
            && forall k :: k in Keys(r) && k != key ==> k in Keys(c) && Find(r, k) == Find(c, k)
  {
    hide Distinct, Keys, Find, Without;
    var slot := Slot(key, s, now + ttl);
    var rest := if key in Keys(c) then Without(c, key) else Trimmed(c, cap);
    if key in Keys(c) {
      WithoutKeys(c, key);
      forall k | k in Keys(rest) ensures k in Keys(c) && Find(rest, k) == Find(c, k) { FindWithout(c, key, k); }
    } else if rest != c {
      InitKeys(c);
      forall k | k in Keys(rest) ensures k in Keys(c) && Find(rest, k) == Find(c, k) { FindInit(c, k); }
    }
    FrontIsFound(slot, rest, key);
    forall k | k in Keys([slot] + rest) && k != key ensures k in Keys(c) && Find([slot] + rest, k) == Find(c, k) {
      FrontIsFound(slot, rest, k);
    }
  }

  lemma AfterGetRoom(c: seq<Slot>, key: string, now: int)
    requires Distinct(c)
    ensures |AfterGet(c, key, now)| <= |c| && Keys(c) - {key} <= Keys(AfterGet(c, key, now))
  {
    if key in Keys(c) {
      WithoutKeys(c, key);
      var rest := Without(c, key);
      assert ([Find(c, key)] + rest)[1..] == rest;
    }
  }

  /** A set drops another key only from a full cache. */
  lemma AfterSetRoom(c: seq<Slot>, cap: nat, ttl: int, key: string, s: Strategy, now: int)
    requires Distinct(c) && |c| <= cap && cap >= 1
    ensures var r := AfterSet(c, cap, ttl, key, s, now);
            |r| <= cap && (|c| < cap ==> Keys(c) <= Keys(r))
  {
    hide Distinct, Without;
    var rest := if key in Keys(c) then Without(c, key) else Trimmed(c, cap);
    if key in Keys(c) { WithoutKeys(c, key); }
    assert ([Slot(key, s, now + ttl)] + rest)[1..] == rest;
  }

  // ---- the cache object ----

  class CacheEntry {
    const key: string
    var strategy: Strategy
    var expiresAt: int

    constructor (key: string, strategy: Strategy, expiresAt: int)
      ensures this.key == key && this.strategy == strategy && this.expiresAt == expiresAt
    {
      this.key, this.strategy, this.expiresAt := key, strategy, expiresAt;
    }

    function Value(): Slot
      reads this
    {
      Slot(key, strategy, expiresAt)
    }
  }

  /** The slots of a recency list. */
  ghost function View(order: seq<CacheEntry>): seq<Slot>
    reads order
  {
    if order == [] then [] else [order[0].Value()] + View(order[1..])
  }

  /** The list library's Remove: every entry but `el`. */
  function Removed(order: seq<CacheEntry>, el: CacheEntry): seq<CacheEntry>
  {
    if order == [] then [] else if order[0] == el then order[1..] else [order[0]] + Removed(order[1..], el)
  }

  ghost predicate DistinctEntries(order: seq<CacheEntry>)
  {
    forall i, j :: 0 <= i < j < |order| ==> order[i].key != order[j].key
  }

  lemma {:induction false} ViewKeys(order: seq<CacheEntry>)
    ensures forall k :: k in Keys(View(order)) <==> exists e :: e in order && e.key == k
    ensures |View(order)| == |order|
  {
    if order != [] {
      ViewKeys(order[1..]);
      assert View(order)[1..] == View(order[1..]);
      assert forall e :: e in order <==> e == order[0] || e in order[1..];
    }
  }

  lemma {:induction false} ViewFind(order: seq<CacheEntry>, e: CacheEntry)
    requires DistinctEntries(order) && e in order
    ensures e.key in Keys(View(order)) && Find(View(order), e.key) == e.Value()
  {
    assert View(order)[1..] == View(order[1..]);
    if order[0] != e {
      assert e in order[1..];
      ViewFind(order[1..], e);
    }
  }

  lemma {:induction false} RemovedMembers(order: seq<CacheEntry>, e: CacheEntry)
    requires DistinctEntries(order) && e in order
    ensures DistinctEntries(Removed(order, e))
    ensures forall i :: 0 <= i < |Removed(order, e)| ==> Removed(order, e)[i] in order && Removed(order, e)[i] != e
    ensures forall x :: x in order && x != e ==> x in Removed(order, e)
  {
    assert forall x :: x in order <==> x == order[0] || x in order[1..];
    var r := Removed(order, e);
    if order[0] == e {
      assert forall i :: 0 <= i < |r| ==> r[i] == order[i + 1];
    } else {
      RemovedMembers(order[1..], e);
      var tail := Removed(order[1..], e);
      forall i | 0 <= i < |tail| ensures tail[i].key != order[0].key {
        var k :| 0 <= k < |order[1..]| && order[1..][k] == tail[i];
        assert order[k + 1] == tail[i];
      }
      PrependDistinct(order[0], tail);
      assert forall i :: 1 <= i < |r| ==> r[i] == tail[i - 1];
    }
  }

  lemma PrependDistinct(e: CacheEntry, rest: seq<CacheEntry>)
    requires DistinctEntries(rest) && forall i :: 0 <= i < |rest| ==> rest[i].key != e.key
    ensures DistinctEntries([e] + rest)
  {
    var r := [e] + rest;
    assert forall i :: 1 <= i < |r| ==> r[i] == rest[i - 1];
  }

  lemma {:induction false} ViewRemoved(order: seq<CacheEntry>, e: CacheEntry)
    requires DistinctEntries(order) && e in order
    ensures View(Removed(order, e)) == Without(View(order), e.key)
  {
    assert View(order)[0] == order[0].Value() && View(order)[1..] == View(order[1..]);
    if order[0] != e {
      ViewRemoved(order[1..], e);
      var r := Removed(order, e);
      assert r[0] == order[0] && r[1..] == Removed(order[1..], e);
    }
  }

  /** Map and list hold the same entries, one per key. Keys never change, so this needs no heap. */
  ghost predicate Linked(items: map<string, CacheEntry>, order: seq<CacheEntry>)
  {
    && DistinctEntries(order)
    && (forall i :: 0 <= i < |order| ==> order[i].key in items && items[order[i].key] == order[i])
    && forall k :: k in items ==> items[k] in order && items[k].key == k
  }

  lemma LinkedRemove(items: map<string, CacheEntry>, order: seq<CacheEntry>, e: CacheEntry)
    requires Linked(items, order) && e in order
    ensures Linked(items - {e.key}, Removed(order, e)) && e !in Removed(order, e)
    ensures Linked(items, [e] + Removed(order, e))
  {
    hide Removed;
    RemovedMembers(order, e);
    var r := Removed(order, e);
    forall i | 0 <= i < |r|
      ensures r[i].key in items && items[r[i].key] == r[i] && r[i].key != e.key
    {
      var k :| 0 <= k < |order| && order[k] == r[i];
    }
    PrependDistinct(e, r);
    var f := [e] + r;
    assert forall i :: 1 <= i < |f| ==> f[i] == r[i - 1];
    assert forall x :: x in f <==> x == e || x in r;
  }

  lemma LinkedPush(items: map<string, CacheEntry>, order: seq<CacheEntry>, e: CacheEntry)
    requires Linked(items, order) && e.key !in items
    ensures Linked(items[e.key := e], [e] + order)
  {
    PrependDistinct(e, order);
    var f := [e] + order;
    assert forall i :: 1 <= i < |f| ==> f[i] == order[i - 1];
    assert forall x :: x in f <==> x == e || x in order;
  }

  lemma LinkedTrim(items: map<string, CacheEntry>, order: seq<CacheEntry>)
    requires Linked(items, order) && order != []
    ensures Linked(items - {order[|order| - 1].key}, order[..|order| - 1])
  {
    var init, last := order[..|order| - 1], order[|order| - 1];
    assert forall x :: x in order <==> x in init || x == last;
  }

  lemma ViewFront(e: CacheEntry, rest: seq<CacheEntry>)
    ensures View([e] + rest) == [e.Value()] + View(rest)
  {
    assert ([e] + rest)[1..] == rest;
  }

  lemma {:induction false} ViewInit(order: seq<CacheEntry>)
    requires order != []
    ensures |View(order)| == |order| && View(order[..|order| - 1]) == View(order)[..|order| - 1]
  {
    var init := order[..|order| - 1];
    if |order| > 1 {
      ViewInit(order[1..]);
      assert init[1..] == order[1..][..|order| - 2];
      assert View(order) == [order[0].Value()] + View(order[1..]);
    } else {
      assert order[1..] == [] && init == [];
    }
  }

  lemma {:induction false} ViewSize(order: seq<CacheEntry>)
    ensures |View(order)| == |order|
  {
    if order != [] { ViewSize(order[1..]); }
  }

  lemma KeysAreItems(items: map<string, CacheEntry>, order: seq<CacheEntry>)
    requires Linked(items, order)
    ensures Keys(View(order)) == items.Keys
  {
    ViewKeys(order);
    forall k ensures k in Keys(View(order)) <==> k in items {
      if k in items { assert items[k] in order; }
    }
  }

  lemma EntryIsFound(items: map<string, CacheEntry>, order: seq<CacheEntry>, key: string)
    requires Linked(items, order) && key in items
    ensures items[key] in order && items[key].key == key
    ensures key in Keys(View(order)) && Find(View(order), key) == items[key].Value()
  {
    ViewFind(order, items[key]);
  }

  lemma RemovedMembersOf(items: map<string, CacheEntry>, order: seq<CacheEntry>, e: CacheEntry)
    requires Linked(items, order) && e in order
    ensures forall i :: 0 <= i < |Removed(order, e)| ==> Removed(order, e)[i] in order
  {
    RemovedMembers(order, e);
  }

  /** Taking an entry out of the list, and putting it in front. */
  lemma Relinked(items: map<string, CacheEntry>, order: seq<CacheEntry>, key: string)
    requires Linked(items, order) && key in items
    ensures var el := items[key]; var rest := Removed(order, el);
            && Linked(items - {key}, rest) && Linked(items, [el] + rest) && el !in rest
            && View(rest) == Without(View(order), key)
            && View([el] + rest) == [el.Value()] + Without(View(order), key)
  {
    hide View, Removed;
    var el := items[key];
    LinkedRemove(items, order, el);
    ViewRemoved(order, el);
    ViewFront(el, Removed(order, el));
  }

  class Cache {
    const cap: nat
    const ttl: int
    var items: map<string, CacheEntry>
    var order: seq<CacheEntry>

    ghost predicate Valid()
      reads this
    {
      Linked(items, order)
    }

    constructor (cap: nat, ttl: int)
      ensures Valid() && View(order) == [] && this.cap == cap && this.ttl == ttl
    {
      this.cap, this.ttl, items, order := cap, ttl, map[], [];
    }

    method Get(key: string, now: int) returns (strategy: Strategy, ok: bool)
      requires Valid()
      modifies this
      ensures Valid()
      ensures View(order) == AfterGet(old(View(order)), key, now)
      ensures (if ok then Hit(strategy) else Miss) == Lookup(old(View(order)), key, now)
      ensures forall i :: 0 <= i < |order| ==> order[i] in old(order)
    {
      hide View, Linked, Removed, Keys, Find, Without;
      KeysAreItems(items, order);
      if key !in items { return Unknown, false; }
      var el := items[key];
      EntryIsFound(items, order, key);
      Relinked(items, order, key);
      RemovedMembersOf(items, order, el);
      if now > el.expiresAt {
        order := Removed(order, el);
        items := items - {key};
        return Unknown, false;
      }
      order := [el] + Removed(order, el);
      return el.strategy, true;
    }

    method Set(key: string, strategy: Strategy, now: int)
      requires Valid()
      modifies this, order
      ensures Valid()
      ensures View(order) == AfterSet(old(View(order)), cap, ttl, key, strategy, now)
    {
      KeysAreItems(items, order);
      if key in items {
        Refresh(key, strategy, now);
      } else {
        Push(key, strategy, now);
      }
    }

    method Refresh(key: string, strategy: Strategy, now: int)
      requires Valid() && key in items
      modifies this, order
      ensures Valid()
      ensures View(order) == [Slot(key, strategy, now + ttl)] + Without(old(View(order)), key)
    {
      hide View, Linked, Removed, Keys, Find, Without;
      var el := items[key];
      EntryIsFound(items, order, key);
      Relinked(items, order, key);
      ghost var rest := Removed(order, el);
      order := [el] + Removed(order, el);
      el.strategy := strategy;
      el.expiresAt := now + ttl;
      ViewFront(el, rest);
    }

    method Push(key: string, strategy: Strategy, now: int)
      requires Valid() && key !in items
      modifies this
      ensures Valid()
      ensures View(order) == [Slot(key, strategy, now + ttl)] + Trimmed(old(View(order)), cap)
    {
      hide View, Linked;
      ViewSize(order);
      if |order| >= cap && |order| > 0 {
        ViewInit(order);
        LinkedTrim(items, order);
        var oldest := order[|order| - 1];
        order := order[..|order| - 1];
        items := items - {oldest.key};
      }
      var el := new CacheEntry(key, strategy, now + ttl);
      ViewFront(el, order);
      LinkedPush(items, order, el);
      order := [el] + order;
      items := items[key := el];
    }
  }
}
