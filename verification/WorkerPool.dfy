/**
 internal/proxy/server.go: the overflow worker pool. Each channel, counter and wait-group operation
 is one atomic step; the accept loop is the only submitter and is also the one that drains.
 */
module WorkerPool {
  import opened Seqs

  /** Tasks are numbered in the order they are submitted. */
  type Task = nat

  /** Where the accept loop stands inside submit or drain. */
  datatype Submitter =
    | Idle
    | Offering(task: Task)      // counted as queued, at the select
    | Rejected(task: Task)      // the buffer was full
    | Uncounted(task: Task)     // no longer counted as queued
    | Registered(task: Task)    // overflow.Add(1) done
    | Counted(task: Task)       // overflow_ counted, goroutine not yet started
    | AwaitWorkers              // channel closed
    | AwaitOverflow
    | Drained

  datatype Worker = Waiting | Holding(task: Task) | Running(task: Task) | Exited

  datatype Extra = Fresh(task: Task) | Finished | Leaving

  datatype State = State(
    submitted: nat, sub: Submitter,
    queue: seq<Task>, closed: bool,
    workers: seq<Worker>, extras: seq<Extra>,
    queued: int, overflow: int,          // the two atomic counters
    workersWg: int, overflowWg: int,     // the two wait groups
    finished: seq<Task>)

  datatype Event =
    | Submit | Send | Default | Uncount | Register | CountOverflow | Spawn
    | Receive(w: nat) | Dequeue(w: nat) | Finish(w: nat) | Exit(w: nat)
    | ExtraFinish(i: nat) | ExtraUncount(i: nat) | ExtraDone(i: nat)
    | Close | WorkersDone | OverflowDone

  predicate Enabled(capacity: nat, s: State, e: Event)
  {
    match e
    case Submit => s.sub.Idle?
    case Send => s.sub.Offering? && |s.queue| < capacity
    case Default => s.sub.Offering? && |s.queue| >= capacity
    case Uncount => s.sub.Rejected?
    case Register => s.sub.Uncounted?
    case CountOverflow => s.sub.Registered?
    case Spawn => s.sub.Counted?
    case Receive(w) => w < |s.workers| && s.workers[w].Waiting? && s.queue != []
    case Dequeue(w) => w < |s.workers| && s.workers[w].Holding?
    case Finish(w) => w < |s.workers| && s.workers[w].Running?
    case Exit(w) => w < |s.workers| && s.workers[w].Waiting? && s.queue == [] && s.closed
    case ExtraFinish(i) => i < |s.extras| && s.extras[i].Fresh?
    case ExtraUncount(i) => i < |s.extras| && s.extras[i].Finished?
    case ExtraDone(i) => i < |s.extras| && s.extras[i].Leaving?
    case Close => s.sub.Idle?
    case WorkersDone => s.sub.AwaitWorkers? && s.workersWg == 0
    case OverflowDone => s.sub.AwaitOverflow? && s.overflowWg == 0
  }

  function Step(capacity: nat, s: State, e: Event): State
    requires Enabled(capacity, s, e)
  {
    match e
    case Submit => s.(sub := Offering(s.submitted), submitted := s.submitted + 1, queued := s.queued + 1)
    case Send => s.(sub := Idle, queue := s.queue + [s.sub.task])
    case Default => s.(sub := Rejected(s.sub.task))
    case Uncount => s.(sub := Uncounted(s.sub.task), queued := s.queued - 1)
    case Register => s.(sub := Registered(s.sub.task), overflowWg := s.overflowWg + 1)
    case CountOverflow => s.(sub := Counted(s.sub.task), overflow := s.overflow + 1)
    case Spawn => s.(sub := Idle, extras := s.extras + [Fresh(s.sub.task)])
    case Receive(w) => s.(workers := s.workers[w := Holding(s.queue[0])], queue := s.queue[1..])
    case Dequeue(w) => s.(workers := s.workers[w := Running(s.workers[w].task)], queued := s.queued - 1)
    case Finish(w) => s.(workers := s.workers[w := Waiting], finished := s.finished + [s.workers[w].task])
    case Exit(w) => s.(workers := s.workers[w := Exited], workersWg := s.workersWg - 1)
    case ExtraFinish(i) => s.(extras := s.extras[i := Finished], finished := s.finished + [s.extras[i].task])
    case ExtraUncount(i) => s.(extras := s.extras[i := Leaving], overflow := s.overflow - 1)
    case ExtraDone(i) => s.(extras := s.extras[..i] + s.extras[i + 1..], overflowWg := s.overflowWg - 1)
    case Close => s.(sub := AwaitWorkers, closed := true)
    case WorkersDone => s.(sub := AwaitOverflow)
    case OverflowDone => s.(sub := Drained)
  }

  function Initial(size: nat): State
  {
    State(0, Idle, [], false, seq(size, _ => Waiting), [], 0, 0, size, 0, [])
  }

  /** newWorkerPool gives the channel four slots per worker. Disabled events are skipped. */
  function Run(size: nat, es: seq<Event>): State
  {
    if es == [] then Initial(size) else
    var s := Run(size, es[..|es| - 1]);
    if Enabled(4 * size, s, es[|es| - 1]) then Step(4 * size, s, es[|es| - 1]) else s
  }

  // ---- counting over workers and overflow goroutines ----

  function IsHolding(w: Worker): nat { if w.Holding? then 1 else 0 }

  function IsAlive(w: Worker): nat { if w.Exited? then 0 else 1 }

  function IsCounted(x: Extra): nat { if x.Leaving? then 0 else 1 }

  function WorkerHas(t: Task): Worker -> nat
  {
    (w: Worker) => if (w.Holding? || w.Running?) && w.task == t then 1 else 0
  }

  function ExtraHas(t: Task): Extra -> nat
  {
    (x: Extra) => if x.Fresh? && x.task == t then 1 else 0
  }

  function SameTask(t: Task): Task -> nat
  {
    (u: Task) => if u == t then 1 else 0
  }

  predicate InHand(sub: Submitter)
  {
    sub.Offering? || sub.Rejected? || sub.Uncounted? || sub.Registered? || sub.Counted?
  }

  /** In how many places a task is: with the submitter, buffered, at a worker or goroutine, or finished. */
  function Places(s: State, t: Task): nat
  {
    (if InHand(s.sub) && s.sub.task == t then 1 else 0)
    + Sum(s.queue, SameTask(t)) + Sum(s.workers, WorkerHas(t)) + Sum(s.extras, ExtraHas(t))
    + Sum(s.finished, SameTask(t))
  }

  // ---- the invariant ----

  ghost predicate Tracked(s: State, t: Task) { Places(s, t) == if t < s.submitted then 1 else 0 }

  ghost predicate Counters(capacity: nat, s: State)
  {
    && s.queued == |s.queue| + Sum(s.workers, IsHolding) + (if s.sub.Offering? || s.sub.Rejected? then 1 else 0)
    && s.overflow == Sum(s.extras, IsCounted) + (if s.sub.Counted? then 1 else 0)
    && s.workersWg == Sum(s.workers, IsAlive)
    && s.overflowWg == |s.extras| + (if s.sub.Registered? || s.sub.Counted? then 1 else 0)
    && |s.queue| <= capacity
  }

  ghost predicate Phases(s: State)
  {
    && |s.workers| >= 1
    && (s.closed <==> s.sub.AwaitWorkers? || s.sub.AwaitOverflow? || s.sub.Drained?)
    && (forall w :: 0 <= w < |s.workers| && s.workers[w].Exited? ==> s.closed && s.queue == [])
    && (s.sub.AwaitOverflow? || s.sub.Drained? ==> s.workersWg == 0)
    && (s.sub.Drained? ==> s.overflowWg == 0)
  }

  ghost predicate Invariant(capacity: nat, s: State)
  {
    Counters(capacity, s) && Phases(s) && forall t :: Tracked(s, t)
  }

  lemma CountersStep(capacity: nat, s: State, e: Event)
    requires Enabled(capacity, s, e) && Counters(capacity, s)
    ensures Counters(capacity, Step(capacity, s, e))
  {
    hide Sum;
    match e {
      case Spawn => SumSnoc(s.extras, Fresh(s.sub.task), IsCounted);
      case Receive(w) => WorkerUpdate(s, w, Holding(s.queue[0]));
      case Dequeue(w) => WorkerUpdate(s, w, Running(s.workers[w].task));
      case Finish(w) => WorkerUpdate(s, w, Waiting);
      case Exit(w) => WorkerUpdate(s, w, Exited);
      case ExtraFinish(i) => SumUpdate(s.extras, i, Finished, IsCounted);
      case ExtraUncount(i) => SumUpdate(s.extras, i, Leaving, IsCounted);
      case ExtraDone(i) => SumRemove(s.extras, i, IsCounted);
      case _ =>
    }
  }

  lemma WorkerUpdate(s: State, w: nat, x: Worker)
    requires w < |s.workers|
    ensures Sum(s.workers[w := x], IsHolding) + IsHolding(s.workers[w]) == Sum(s.workers, IsHolding) + IsHolding(x)
    ensures Sum(s.workers[w := x], IsAlive) + IsAlive(s.workers[w]) == Sum(s.workers, IsAlive) + IsAlive(x)
  {
    SumUpdate(s.workers, w, x, IsHolding);
    SumUpdate(s.workers, w, x, IsAlive);
  }

  lemma PhasesStep(capacity: nat, s: State, e: Event)
    requires Enabled(capacity, s, e) && Counters(capacity, s) && Phases(s)
    ensures Phases(Step(capacity, s, e))
  {
    hide Sum;
    if s.sub.AwaitOverflow? || s.sub.Drained? { NobodyAlive(s); }
  }

  lemma NobodyAlive(s: State)
    requires Sum(s.workers, IsAlive) == 0
    ensures forall w :: 0 <= w < |s.workers| ==> s.workers[w].Exited?
  {
    SumZero(s.workers, IsAlive);
    assert forall w :: 0 <= w < |s.workers| ==> IsAlive(s.workers[w]) == 0;
  }

  /** A step moves a task from one place to the next. */
  lemma TrackedStep(capacity: nat, s: State, e: Event, t: Task)
    requires Enabled(capacity, s, e) && Tracked(s, t)
    ensures Tracked(Step(capacity, s, e), t)
  {
    hide Sum;
    match e {
      case Send => SumSnoc(s.queue, s.sub.task, SameTask(t));
      case Spawn => SumSnoc(s.extras, Fresh(s.sub.task), ExtraHas(t));
      case Receive(w) =>
        SumUpdate(s.workers, w, Holding(s.queue[0]), WorkerHas(t));
        SumRemove(s.queue, 0, SameTask(t));
        assert s.queue[..0] + s.queue[1..] == s.queue[1..];
      case Dequeue(w) => SumUpdate(s.workers, w, Running(s.workers[w].task), WorkerHas(t));
      case Finish(w) =>
        SumUpdate(s.workers, w, Waiting, WorkerHas(t));
        SumSnoc(s.finished, s.workers[w].task, SameTask(t));
      case Exit(w) => SumUpdate(s.workers, w, Exited, WorkerHas(t));
      case ExtraFinish(i) =>
        SumUpdate(s.extras, i, Finished, ExtraHas(t));
        SumSnoc(s.finished, s.extras[i].task, SameTask(t));
      case ExtraUncount(i) => SumUpdate(s.extras, i, Leaving, ExtraHas(t));
      case ExtraDone(i) => SumRemove(s.extras, i, ExtraHas(t));
      case _ =>
    }
  }

  lemma InitialInvariant(size: nat)
    requires size >= 1
    ensures Invariant(4 * size, Initial(size))
  {
    var s := Initial(size);
    SumAllZero(s.workers, IsHolding);
    AllAlive(size);
    forall t ensures Tracked(s, t) { SumAllZero(s.workers, WorkerHas(t)); }
  }

  lemma {:induction false} AllAlive(size: nat)
    ensures Sum(seq(size, _ => Waiting), IsAlive) == size
  {
    if size > 0 {
      AllAlive(size - 1);
      assert seq(size, _ => Waiting) == seq(size - 1, _ => Waiting) + [Waiting];
      SumSnoc(seq(size - 1, _ => Waiting), Waiting, IsAlive);
    }
  }

  /** The invariant holds under every interleaving. */
  lemma {:induction false} RunKeepsInvariant(size: nat, es: seq<Event>)
    requires size >= 1
    ensures Invariant(4 * size, Run(size, es))
  {
    if es == [] {
      InitialInvariant(size);
    } else {
      hide Step, Enabled, Counters, Phases, Tracked;
      RunKeepsInvariant(size, es[..|es| - 1]);
      var s, e := Run(size, es[..|es| - 1]), es[|es| - 1];
      if Enabled(4 * size, s, e) {
        CountersStep(4 * size, s, e);
        PhasesStep(4 * size, s, e);
        forall t ensures Tracked(Step(4 * size, s, e), t) { TrackedStep(4 * size, s, e, t); }
      }
    }
  }

  // ---- what follows for the pool ----

  /** At every moment a submitted task is in exactly one place, so it is finished at most once. */
  lemma NoTaskTwice(size: nat, es: seq<Event>, t: Task)
    requires size >= 1
    ensures Places(Run(size, es), t) == if t < Run(size, es).submitted then 1 else 0
    ensures Sum(Run(size, es).finished, SameTask(t)) <= 1
  {
    hide Sum, Run;
    RunKeepsInvariant(size, es);
    assert Tracked(Run(size, es), t);
  }

  /** The queued counter is the buffered tasks plus those mid-handoff, and never negative. */
  lemma QueuedIsExact(size: nat, es: seq<Event>)
    requires size >= 1
    ensures var s := Run(size, es);
            && s.queued == |s.queue| + Sum(s.workers, IsHolding)
                           + (if s.sub.Offering? || s.sub.Rejected? then 1 else 0)
            && s.queued >= 0 && s.overflow >= 0 && |s.queue| <= 4 * size
  {
    hide Sum, Run;
    RunKeepsInvariant(size, es);
  }

  /** A task is turned away to a goroutine of its own exactly when all four slots per worker are taken. */
  lemma OverflowOnlyWhenFull(size: nat, es: seq<Event>)
    requires size >= 1 && Run(size, es).sub.Offering?
    ensures Enabled(4 * size, Run(size, es), Default) <==> |Run(size, es).queue| == 4 * size
    ensures Enabled(4 * size, Run(size, es), Send) <==> |Run(size, es).queue| != 4 * size
  {
    hide Sum, Run;
    RunKeepsInvariant(size, es);
  }

  /** Nothing is offered to the channel once it is closed. */
  lemma NoSendAfterClose(size: nat, es: seq<Event>)
    requires size >= 1 && Run(size, es).closed
    ensures !Enabled(4 * size, Run(size, es), Submit) && !Enabled(4 * size, Run(size, es), Send)
    ensures !Enabled(4 * size, Run(size, es), Close)
  {
    hide Sum, Run;
    RunKeepsInvariant(size, es);
  }

  /** When drain returns, every submitted task has finished exactly once and both counters are zero. */
  lemma DrainedIsDone(size: nat, es: seq<Event>)
    requires size >= 1 && Run(size, es).sub.Drained?
    ensures var s := Run(size, es);
            && s.queue == [] && s.extras == [] && s.queued == 0 && s.overflow == 0
            && (forall w :: 0 <= w < |s.workers| ==> s.workers[w].Exited?)
            && forall t: Task :: Sum(s.finished, SameTask(t)) == if t < s.submitted then 1 else 0
  {
    hide Run;
    RunKeepsInvariant(size, es);
    var s := Run(size, es);
    NobodyAlive(s);
    assert s.workers[0].Exited?;
    SumAllZero(s.workers, IsHolding);
    forall t: Task ensures Sum(s.finished, SameTask(t)) == if t < s.submitted then 1 else 0 {
      assert Tracked(s, t);
      SumAllZero(s.workers, WorkerHas(t));
    }
  }

  // ---- drain returns ----

  function WorkerLoad(w: Worker): nat
  {
    match w
    case Exited => 0
    case Waiting => 1
    case Running(_) => 2
    case Holding(_) => 3
  }

  function ExtraLoad(x: Extra): nat
  {
    match x
    case Leaving => 1
    case Finished => 2
    case Fresh(_) => 3
  }

  /** The steps a closed pool can still take, at most. */
  function Remaining(s: State): nat
  {
    4 * |s.queue| + Sum(s.workers, WorkerLoad) + Sum(s.extras, ExtraLoad)
    + match s.sub { case Drained => 0 case AwaitOverflow => 1 case _ => 2 }
  }

  lemma ClosedStepsDecrease(capacity: nat, s: State, e: Event)
    requires Enabled(capacity, s, e) && Phases(s) && s.closed
    ensures Remaining(Step(capacity, s, e)) < Remaining(s)
  {
    hide Sum;
    match e {
      case Receive(w) => SumUpdate(s.workers, w, Holding(s.queue[0]), WorkerLoad);
      case Dequeue(w) => SumUpdate(s.workers, w, Running(s.workers[w].task), WorkerLoad);
      case Finish(w) => SumUpdate(s.workers, w, Waiting, WorkerLoad);
      case Exit(w) => SumUpdate(s.workers, w, Exited, WorkerLoad);
      case ExtraFinish(i) => SumUpdate(s.extras, i, Finished, ExtraLoad);
      case ExtraUncount(i) => SumUpdate(s.extras, i, Leaving, ExtraLoad);
      case ExtraDone(i) => SumRemove(s.extras, i, ExtraLoad);
      case _ =>
    }
  }

  /** Until it is drained a closed pool always has a next step: no deadlock in drain. */
  lemma ClosedPoolMoves(capacity: nat, s: State) returns (e: Event)
    requires Invariant(capacity, s) && s.closed && !s.sub.Drained?
    ensures Enabled(capacity, s, e)
  {
    hide Sum;
    if s.sub.AwaitWorkers? && s.workersWg == 0 {
      e := WorkersDone;
    } else if s.sub.AwaitWorkers? {
      var w := SumPositive(s.workers, IsAlive);
      e := match s.workers[w]
        case Holding(_) => Dequeue(w)
        case Running(_) => Finish(w)
        case _ => if s.queue == [] then Exit(w) else Receive(w);
    } else if s.overflowWg == 0 {
      e := OverflowDone;
    } else {
      e := match s.extras[0]
        case Fresh(_) => ExtraFinish(0)
        case Finished => ExtraUncount(0)
        case Leaving => ExtraDone(0);
    }
  }

  /** Inside submit the accept loop is never blocked, however full the pool is. */
  lemma SubmitNeverBlocks(capacity: nat, s: State)
    requires InHand(s.sub)
    ensures exists e :: Enabled(capacity, s, e) && (e.Send? || e.Default? || e.Uncount? || e.Register?
                                                    || e.CountOverflow? || e.Spawn?)
  {
    var e := match s.sub
      case Offering(_) => if |s.queue| < capacity then Send else Default
      case Rejected(_) => Uncount
      case Uncounted(_) => Register
      case Registered(_) => CountOverflow
      case _ => Spawn;
    assert Enabled(capacity, s, e);
  }

  /** Every event of the list is enabled where it comes. */
  ghost predicate Schedule(capacity: nat, s: State, es: seq<Event>)
    decreases es
  {
    es == [] || (Enabled(capacity, s, es[0]) && Schedule(capacity, Step(capacity, s, es[0]), es[1..]))
  }

  /** From a closed pool every schedule is finite: drain returns under every scheduler that keeps moving. */
  lemma {:induction false} DrainTerminates(capacity: nat, s: State, es: seq<Event>)
    requires Invariant(capacity, s) && s.closed && Schedule(capacity, s, es)
    ensures |es| <= Remaining(s)
    decreases es
  {
    if es != [] {
      hide Sum, Step, Enabled, Counters, Tracked, Remaining;
      var e := es[0];
      var s' := Step(capacity, s, e);
      ClosedStepsDecrease(capacity, s, e);
      CountersStep(capacity, s, e);
      PhasesStep(capacity, s, e);
      StaysClosed(capacity, s, e);
      forall t ensures Tracked(s', t) { TrackedStep(capacity, s, e, t); }
      DrainTerminates(capacity, s', es[1..]);
    }
  }

  lemma StaysClosed(capacity: nat, s: State, e: Event)
    requires Enabled(capacity, s, e) && s.closed
    ensures Step(capacity, s, e).closed
  {
  }
}
