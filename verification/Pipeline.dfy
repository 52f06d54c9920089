/** The worker pool of ulpf/core/pipeline.py over the bounded queue of ulpf/ingest/queue.py, as a
    transition system with one step between two awaits. */
module Pipeline {
  import opened Core

  /** `raw` tells whether the event is a RawEvent, the only kind that can be dead-lettered. */
  datatype Event = Event(id: nat, raw: bool)

  datatype Item = Work(event: Event) | Sentinel

  /** `Busy(event, k)`: the original event is with the worker and stage k comes next. */
  datatype Worker = Idle | Busy(event: Event, stage: nat) | Exited

  datatype DeadLetter = DeadLetter(event: Event, stage: nat)

  datatype Phase = Running | Joining(ready: bool) | Sending(sent: nat) | Gathering | Stopped

  datatype Config = Config(capacity: int, workerCount: nat, stageCount: nat)

  datatype State = State(
    phase: Phase,
    queue: seq<Item>,
    unfinished: int,           // asyncio's count of items put but not yet marked done
    workers: seq<Worker>,
    blocked: multiset<Event>,  // submits waiting for space
    submitted: multiset<Event>,
    finished: multiset<Event>,
    dropped: multiset<Event>,
    dead: seq<DeadLetter>,     // the dead-letter queue
    discarded: multiset<Event>, // failed events that are not raw: logged, not dead-lettered
    mark: multiset<Event>)      // what had been enqueued when `stop` began

  function Start(c: Config): State {
    State(Running, [], 0, seq(c.workerCount, _ => Idle), multiset{}, multiset{}, multiset{}, multiset{},
          [], multiset{}, multiset{})
  }

  predicate Full(c: Config, s: State) {
    0 < c.capacity <= |s.queue|
  }

  // ----- steps -----

  datatype Action =
    | Submit(event: Event)
    | Unblock(event: Event)
    | Get(w: nat)
    | Pass(w: nat)     // the next stage returns an event
    | Finish(w: nat)   // the chain is at its end
    | DropBy(w: nat)   // the next stage returns None
    | Raise(w: nat)    // the next stage raises
    | BeginStop
    | JoinReturns
    | SendSentinel
    | AllSent
    | GatherReturns

  predicate Enabled(c: Config, s: State, a: Action) {
    match a
    case Submit(_) => s.phase == Running
    case Unblock(e) => e in s.blocked && !Full(c, s)
    case Get(w) => w < |s.workers| && s.workers[w] == Idle && s.queue != []
    case Pass(w) => w < |s.workers| && s.workers[w].Busy? && s.workers[w].stage < c.stageCount
    case Finish(w) => w < |s.workers| && s.workers[w].Busy? && s.workers[w].stage >= c.stageCount
    case DropBy(w) => w < |s.workers| && s.workers[w].Busy? && s.workers[w].stage < c.stageCount
    case Raise(w) => w < |s.workers| && s.workers[w].Busy? && s.workers[w].stage < c.stageCount
    case BeginStop => s.phase == Running
    case JoinReturns => s.phase == Joining(true)
    case SendSentinel => s.phase.Sending? && s.phase.sent < c.workerCount && !Full(c, s)
    case AllSent => s.phase == Sending(c.workerCount)
    case GatherReturns => s.phase == Gathering && forall w :: 0 <= w < |s.workers| ==> s.workers[w] == Exited
  }

  function Put(s: State, item: Item): State {
    s.(queue := s.queue + [item], unfinished := s.unfinished + 1)
  }

  /** `task_done`: when the count reaches zero, a pending `join` is released for good. */
  function TaskDone(s: State): State {
    s.(unfinished := s.unfinished - 1,
       phase := if s.phase.Joining? && s.unfinished == 1 then Joining(true) else s.phase)
  }

  function Leave(s: State, w: nat): State
    requires w < |s.workers|
  {
    TaskDone(s.(workers := s.workers[w := Idle]))
  }

  function Step(c: Config, s: State, a: Action): State
    requires Enabled(c, s, a)
  {
    match a
    case Submit(e) =>
      var t := s.(submitted := s.submitted + multiset{e});
      if Full(c, s) then t.(blocked := s.blocked + multiset{e}) else Put(t, Work(e))
    case Unblock(e) => Put(s.(blocked := s.blocked - multiset{e}), Work(e))
    case Get(w) =>
      var t := s.(queue := s.queue[1..]);
      if s.queue[0].Sentinel? then TaskDone(t.(workers := s.workers[w := Exited]))
      else t.(workers := s.workers[w := Busy(s.queue[0].event, 0)])
    case Pass(w) => s.(workers := s.workers[w := s.workers[w].(stage := s.workers[w].stage + 1)])
    case Finish(w) => Leave(s.(finished := s.finished + multiset{s.workers[w].event}), w)
    case DropBy(w) => Leave(s.(dropped := s.dropped + multiset{s.workers[w].event}), w)
    case Raise(w) =>
      var e := s.workers[w].event;
      Leave(if e.raw
            then s.(dead := s.dead + [DeadLetter(e, s.workers[w].stage)])
            else s.(discarded := s.discarded + multiset{e}), w)
    case BeginStop => s.(phase := Joining(s.unfinished == 0), mark := s.submitted - s.blocked)
    case JoinReturns => s.(phase := Sending(0))
    case SendSentinel => Put(s, Sentinel).(phase := Sending(s.phase.sent + 1))
    case AllSent => s.(phase := Gathering)
    case GatherReturns => s.(phase := Stopped)
  }

  // ----- tallies, per event -----

  function IsEvent(item: Item, e: Event): nat {
    if item == Work(e) then 1 else 0
  }

  function Queued(queue: seq<Item>, e: Event): nat {
    if queue == [] then 0 else IsEvent(queue[0], e) + Queued(queue[1..], e)
  }

  function Sentinels(queue: seq<Item>): nat {
    if queue == [] then 0 else (if queue[0].Sentinel? then 1 else 0) + Sentinels(queue[1..])
  }

  function Holds(w: Worker, e: Event): nat {
    if w.Busy? && w.event == e then 1 else 0
  }

  function Held(workers: seq<Worker>, e: Event): nat {
    if workers == [] then 0 else Holds(workers[0], e) + Held(workers[1..], e)
  }

  function BusyWorkers(workers: seq<Worker>): nat {
    if workers == [] then 0 else (if workers[0].Busy? then 1 else 0) + BusyWorkers(workers[1..])
  }

  function Exits(workers: seq<Worker>): nat {
    if workers == [] then 0 else (if workers[0].Exited? then 1 else 0) + Exits(workers[1..])
  }

  function DeadLetters(dead: seq<DeadLetter>, e: Event): nat {
    if dead == [] then 0
    else DeadLetters(dead[..|dead| - 1], e) + (if dead[|dead| - 1].event == e then 1 else 0)
  }

  function Handled(s: State, e: Event): nat {
    s.finished[e] + s.dropped[e] + DeadLetters(s.dead, e) + s.discarded[e]
  }

  lemma {:induction false} QueuedSnoc(queue: seq<Item>, item: Item, e: Event)
    ensures Queued(queue + [item], e) == Queued(queue, e) + IsEvent(item, e)
    ensures Sentinels(queue + [item]) == Sentinels(queue) + (if item.Sentinel? then 1 else 0)
  {
    if queue == [] {
      assert queue + [item] == [item];
    } else {
      assert (queue + [item])[1..] == queue[1..] + [item];
      QueuedSnoc(queue[1..], item, e);
    }
  }

  /** Changing one worker changes the tallies by that worker alone. */
  lemma {:induction false} WorkerChanges(workers: seq<Worker>, w: nat, next: Worker, e: Event)
    requires w < |workers|
    ensures Held(workers[w := next], e) + Holds(workers[w], e) == Held(workers, e) + Holds(next, e)
    ensures BusyWorkers(workers[w := next]) + (if workers[w].Busy? then 1 else 0)
         == BusyWorkers(workers) + (if next.Busy? then 1 else 0)
    ensures Exits(workers[w := next]) + (if workers[w].Exited? then 1 else 0)
         == Exits(workers) + (if next.Exited? then 1 else 0)
  {
    var changed := workers[w := next];
    if w == 0 {
      assert changed[1..] == workers[1..];
    } else {
      assert changed[1..] == workers[1..][w - 1 := next];
      WorkerChanges(workers[1..], w - 1, next, e);
    }
  }

  lemma {:induction false} NobodyBusy(workers: seq<Worker>, e: Event)
    ensures Held(workers, e) <= BusyWorkers(workers)
    ensures (forall w :: 0 <= w < |workers| ==> workers[w] == Exited) ==>
      Exits(workers) == |workers| && BusyWorkers(workers) == 0
  {
    if workers != [] {
      NobodyBusy(workers[1..], e);
    }
  }

  lemma {:induction false} QueuedBound(queue: seq<Item>, e: Event)
    ensures Queued(queue, e) + Sentinels(queue) <= |queue|
  {
    if queue != [] {
      QueuedBound(queue[1..], e);
    }
  }

  // ----- invariants -----

  /** The event is in exactly as many places as it was submitted times. */
  ghost predicate Accounted(s: State, e: Event) {
    s.submitted[e] == s.blocked[e] + Queued(s.queue, e) + Held(s.workers, e) + Handled(s, e)
  }

  /** The unfinished count is the number of items queued or in work. */
  ghost predicate Counted(s: State) {
    s.unfinished == |s.queue| + BusyWorkers(s.workers)
  }

  function SentinelsSent(c: Config, s: State): nat {
    match s.phase
    case Sending(k) => k
    case Gathering => c.workerCount
    case Stopped => c.workerCount
    case _ => 0
  }

  /** Each sentinel sent is still queued or has ended exactly one worker. */
  ghost predicate SentinelsMatch(c: Config, s: State) {
    && |s.workers| == c.workerCount
    && SentinelsSent(c, s) == Sentinels(s.queue) + Exits(s.workers)
    && (s.phase.Sending? ==> s.phase.sent <= c.workerCount)
    && (s.phase == Stopped ==> forall w :: 0 <= w < |s.workers| ==> s.workers[w] == Exited)
  }

  predicate PastJoin(s: State) {
    s.phase == Joining(true) || s.phase.Sending? || s.phase.Gathering? || s.phase.Stopped?
  }

  /** What had been enqueued when `stop` began is on its way before the join and handled after. */
  ghost predicate MarkServed(s: State, e: Event) {
    && (s.phase.Joining? ==> s.mark[e] <= Queued(s.queue, e) + Held(s.workers, e) + Handled(s, e))
    && (PastJoin(s) ==> s.mark[e] <= Handled(s, e))
  }

  ghost predicate Inv(c: Config, s: State, e: Event) {
    Accounted(s, e) && Counted(s) && SentinelsMatch(c, s) && MarkServed(s, e)
  }

  // ----- every step keeps them -----

  /** When nothing is unfinished, nothing is queued or held. */
  lemma AllDone(s: State, e: Event)
    requires Counted(s) && s.unfinished == 0
    ensures Queued(s.queue, e) == 0 && Held(s.workers, e) == 0
  {
    QueuedBound(s.queue, e);
    NobodyBusy(s.workers, e);
  }

  lemma GetKeeps(c: Config, s: State, w: nat, e: Event)
    requires Inv(c, s, e) && Enabled(c, s, Get(w))
    ensures Inv(c, Step(c, s, Get(w)), e)
  {
    var next := Step(c, s, Get(w));
    WorkerChanges(s.workers, w, next.workers[w], e);
    assert next.workers == s.workers[w := next.workers[w]];
    if next.unfinished == 0 {
      AllDone(next, e);
    }
  }

  /** Leaving moves the event from its worker to one of the four ends. */
  lemma LeaveTally(c: Config, s: State, a: Action, w: nat, e: Event)
    requires Enabled(c, s, a) && (a == Finish(w) || a == DropBy(w) || a == Raise(w))
    ensures Handled(Step(c, s, a), e) == Handled(s, e) + Holds(s.workers[w], e)
  {
    if a == Raise(w) && s.workers[w].event.raw {
      assert Step(c, s, a).dead[..|s.dead|] == s.dead;
    }
  }

  lemma LeaveKeeps(c: Config, s: State, a: Action, w: nat, e: Event)
    requires Inv(c, s, e) && Enabled(c, s, a) && (a == Finish(w) || a == DropBy(w) || a == Raise(w))
    ensures Inv(c, Step(c, s, a), e)
  {
    hide Handled, Held, BusyWorkers, Exits, Queued, Sentinels;
    var next := Step(c, s, a);
    LeaveTally(c, s, a, w, e);
    WorkerChanges(s.workers, w, Idle, e);
    assert next.workers == s.workers[w := Idle];
    if next.unfinished == 0 {
      AllDone(next, e);
    }
  }

  lemma EnqueueKeeps(c: Config, s: State, a: Action, e: Event)
    requires Inv(c, s, e) && Enabled(c, s, a) && (a.Submit? || a.Unblock? || a.SendSentinel?)
    ensures Inv(c, Step(c, s, a), e)
  {
    QueuedSnoc(s.queue, if a.SendSentinel? then Sentinel else Work(a.event), e);
  }

  lemma PassKeeps(c: Config, s: State, w: nat, e: Event)
    requires Inv(c, s, e) && Enabled(c, s, Pass(w))
    ensures Inv(c, Step(c, s, Pass(w)), e)
  {
    WorkerChanges(s.workers, w, s.workers[w].(stage := s.workers[w].stage + 1), e);
  }

  lemma PhaseKeeps(c: Config, s: State, a: Action, e: Event)
    requires Inv(c, s, e) && Enabled(c, s, a)
    requires a.BeginStop? || a.JoinReturns? || a.AllSent? || a.GatherReturns?
    ensures Inv(c, Step(c, s, a), e)
  {
    if a.BeginStop? && s.unfinished == 0 {
      AllDone(s, e);
    }
  }

  lemma StepKeeps(c: Config, s: State, a: Action, e: Event)
    requires Inv(c, s, e) && Enabled(c, s, a)
    ensures Inv(c, Step(c, s, a), e)
  {
    hide *;
    match a {
      case Submit(_) => EnqueueKeeps(c, s, a, e);
      case Unblock(_) => EnqueueKeeps(c, s, a, e);
      case SendSentinel => EnqueueKeeps(c, s, a, e);
      case Get(w) => GetKeeps(c, s, w, e);
      case Pass(w) => PassKeeps(c, s, w, e);
      case Finish(w) => LeaveKeeps(c, s, a, w, e);
      case DropBy(w) => LeaveKeeps(c, s, a, w, e);
      case Raise(w) => LeaveKeeps(c, s, a, w, e);
      case _ => PhaseKeeps(c, s, a, e);
    }
  }

  // ----- runs -----

  ghost predicate IsRun(c: Config, states: seq<State>, actions: seq<Action>) {
    && |states| == |actions| + 1 && states[0] == Start(c)
    && forall i :: 0 <= i < |actions| ==>
         Enabled(c, states[i], actions[i]) && states[i + 1] == Step(c, states[i], actions[i])
  }

  lemma {:induction false} AllIdle(workers: seq<Worker>, e: Event)
    requires forall w :: 0 <= w < |workers| ==> workers[w] == Idle
    ensures Held(workers, e) == 0 && BusyWorkers(workers) == 0 && Exits(workers) == 0
  {
    if workers != [] {
      AllIdle(workers[1..], e);
    }
  }

  lemma {:induction false} RunKeeps(c: Config, states: seq<State>, actions: seq<Action>, i: nat, e: Event)
    requires IsRun(c, states, actions) && i < |states|
    ensures Inv(c, states[i], e)
  {
    if i == 0 {
      AllIdle(Start(c).workers, e);
    } else {
      RunKeeps(c, states, actions, i - 1, e);
      StepKeeps(c, states[i - 1], actions[i - 1], e);
    }
  }

  /** Accounting: in every reachable state each submitted event waits for space, is queued, is
      with a worker, or was finished, dropped, dead-lettered or discarded -- exactly once per
      submission -- and the unfinished count is exact. */
  lemma EveryEventAccounted(c: Config, states: seq<State>, actions: seq<Action>, i: nat, e: Event)
    requires IsRun(c, states, actions) && i < |states|
    ensures var s := states[i];
      && s.submitted[e] == s.blocked[e] + Queued(s.queue, e) + Held(s.workers, e)
                           + s.finished[e] + s.dropped[e] + DeadLetters(s.dead, e) + s.discarded[e]
      && s.unfinished == |s.queue| + BusyWorkers(s.workers)
  {
    RunKeeps(c, states, actions, i, e);
  }

  /** Only raw events are dead-lettered, and only others are discarded. */
  lemma {:induction false} FailuresSorted(c: Config, states: seq<State>, actions: seq<Action>, i: nat)
    requires IsRun(c, states, actions) && i < |states|
    ensures forall d :: d in states[i].dead ==> d.event.raw && d.stage < c.stageCount
    ensures forall e :: e in states[i].discarded ==> !e.raw
  {
    if i > 0 {
      FailuresSorted(c, states, actions, i - 1);
    }
  }

  lemma {:induction false} MarkFixed(c: Config, states: seq<State>, actions: seq<Action>, i: nat, j: nat)
    requires IsRun(c, states, actions) && i <= j < |states| && states[i].phase != Running
    ensures states[j].phase != Running && states[j].mark == states[i].mark
  {
    if i < j {
      MarkFixed(c, states, actions, i, j - 1);
    }
  }

  /** Shutdown: when `stop` returns, every event that was enqueued when it began has been fully
      handled, every worker has ended, each on exactly one of the sentinels sent, and none of
      those is left over. */
  lemma StopDrains(c: Config, states: seq<State>, actions: seq<Action>, b: nat, i: nat, e: Event)
    requires IsRun(c, states, actions) && b < i < |states|
    requires actions[b] == BeginStop && states[i].phase == Stopped
    ensures var before, s := states[b], states[i];
      && before.submitted[e] - before.blocked[e] <= Handled(s, e)
      && Exits(s.workers) == c.workerCount && Sentinels(s.queue) == 0
      && Held(s.workers, e) == 0
      && s.submitted[e] == s.blocked[e] + Queued(s.queue, e) + Handled(s, e)
  {
    RunKeeps(c, states, actions, b, e);
    RunKeeps(c, states, actions, i, e);
    MarkFixed(c, states, actions, b + 1, i);
    NobodyBusy(states[i].workers, e);
  }

  // ----- flushing -----

  /** A stage object; identity is the object's. */
  class Stage {
    const hasFlush: bool

    constructor (hasFlush: bool)
      ensures this.hasFlush == hasFlush
    {
      this.hasFlush := hasFlush;
    }
  }

  ghost predicate InSome(lists: seq<seq<Stage>>, stage: Stage) {
    exists i :: 0 <= i < |lists| && stage in lists[i]
  }

  /** The order of `flush` calls: each distinct stage object that has one, exactly once, however
      many workers share it. */
  method FlushStages(lists: seq<seq<Stage>>) returns (flushed: seq<Stage>)
    ensures forall i, j :: 0 <= i < j < |flushed| ==> flushed[i] != flushed[j]
    ensures forall stage :: stage in flushed <==> InSome(lists, stage) && stage.hasFlush
  {
    flushed := [];
    var seen: set<Stage> := {};
    for i := 0 to |lists|
      invariant forall stage :: stage in seen <==> InSome(lists[..i], stage)
      invariant forall stage :: stage in flushed <==> stage in seen && stage.hasFlush
      invariant forall a, b :: 0 <= a < b < |flushed| ==> flushed[a] != flushed[b]
    {
      for k := 0 to |lists[i]|
        invariant forall stage :: stage in seen <==> InSome(lists[..i], stage) || stage in lists[i][..k]
        invariant forall stage :: stage in flushed <==> stage in seen && stage.hasFlush
        invariant forall a, b :: 0 <= a < b < |flushed| ==> flushed[a] != flushed[b]
      {
        var stage := lists[i][k];
        if stage !in seen {
          seen := seen + {stage};
          if stage.hasFlush {
            flushed := flushed + [stage];
          }
        }
      }
      forall stage: Stage
        ensures InSome(lists[..i + 1], stage) <==> InSome(lists[..i], stage) || stage in lists[i]
      {
        if stage in lists[i] {
          assert stage in lists[..i + 1][i];
        }
        if InSome(lists[..i], stage) {
          var k :| 0 <= k < i && stage in lists[..i][k];
          assert stage in lists[..i + 1][k];
        }
      }
    }
    assert lists[..|lists|] == lists;
  }

  // ----- partition-aware workers -----

  /** A worker that owns its buffer: it awaits an event, runs it through the stages, awaits the
      acknowledgement in a `finally` block, or has ended. `done` tells whether the stages are. */
  datatype OwnedWorker = Waiting | InStages(event: Event, stage: nat) | InAck(event: Event, done: bool) | Ended

  datatype Owned = Owned(worker: OwnedWorker, fetched: seq<Event>, handled: seq<Event>, acked: seq<Event>)

  datatype OwnedAction =
    | Fetch(event: Event)
    | NextStage
    | StagesReturn             // any way `_run_stages` returns
    | AckReturns
    | CancelWait
    | BreakStages              // cancelled in the stages, or the dead-letter write raises
    | BreakAck(taken: bool)    // cancelled in the acknowledgement, or it raises; the broker may have taken it

  predicate OwnedEnabled(c: Config, o: Owned, a: OwnedAction) {
    match a
    case Fetch(_) => o.worker == Waiting
    case NextStage => o.worker.InStages? && o.worker.stage < c.stageCount
    case StagesReturn => o.worker.InStages?
    case AckReturns => o.worker.InAck?
    case CancelWait => o.worker == Waiting
    case BreakStages => o.worker.InStages?
    case BreakAck(_) => o.worker.InAck?
  }

  function OwnedStep(c: Config, o: Owned, a: OwnedAction): Owned
    requires OwnedEnabled(c, o, a)
  {
    match a
    case Fetch(e) => o.(worker := InStages(e, 0), fetched := o.fetched + [e])
    case NextStage => o.(worker := o.worker.(stage := o.worker.stage + 1))
    case StagesReturn => o.(worker := InAck(o.worker.event, true), handled := o.handled + [o.worker.event])
    case AckReturns => o.(worker := if o.worker.done then Waiting else Ended, acked := o.acked + [o.worker.event])
    case CancelWait => o.(worker := Ended)
    case BreakStages => o.(worker := InAck(o.worker.event, false))
    case BreakAck(taken) => o.(worker := Ended, acked := if taken then o.acked + [o.worker.event] else o.acked)
  }

  ghost predicate IsOwnedRun(c: Config, states: seq<Owned>, actions: seq<OwnedAction>) {
    && |states| == |actions| + 1 && states[0] == Owned(Waiting, [], [], [])
    && forall i :: 0 <= i < |actions| ==>
         OwnedEnabled(c, states[i], actions[i]) && states[i + 1] == OwnedStep(c, states[i], actions[i])
  }

  /** Was the worker cancelled, or the dead-letter write refused, in the middle of an event? */
  predicate BrokenInStages(actions: seq<OwnedAction>) {
    BreakStages in actions
  }

  /** Did an acknowledgement end without effect? */
  predicate AckLost(actions: seq<OwnedAction>) {
    BreakAck(false) in actions
  }

  /** All events before the last one fetched are handled and acknowledged, in order; how far the
      last one got is what `worker` and the two predicates say. */
  ghost predicate OwnedSound(o: Owned, cancelled: bool, ackLost: bool) {
    match o.worker
    case Waiting => !cancelled && !ackLost && o.handled == o.fetched && o.acked == o.fetched
    case InStages(e, _) => !cancelled && !ackLost && o.fetched == o.handled + [e] && o.acked == o.handled
    case InAck(e, done) =>
      && cancelled == !done && !ackLost
      && o.fetched == o.acked + [e] && o.handled == if done then o.fetched else o.acked
    case Ended =>
      if !cancelled && !ackLost then o.handled == o.fetched && o.acked == o.fetched
      else
        && o.fetched != []
        && o.handled == (if cancelled then o.fetched[..|o.fetched| - 1] else o.fetched)
        && o.acked == (if ackLost then o.fetched[..|o.fetched| - 1] else o.fetched)
  }

  lemma OwnedStepKeeps(c: Config, o: Owned, a: OwnedAction, cancelled: bool, ackLost: bool)
    requires OwnedSound(o, cancelled, ackLost) && OwnedEnabled(c, o, a)
    ensures OwnedSound(OwnedStep(c, o, a), cancelled || a == BreakStages, ackLost || a == BreakAck(false))
  {}

  lemma {:induction false} OwnedKeeps(c: Config, states: seq<Owned>, actions: seq<OwnedAction>, n: nat)
    requires IsOwnedRun(c, states, actions) && n <= |actions|
    ensures OwnedSound(states[n], BrokenInStages(actions[..n]), AckLost(actions[..n]))
  {
    if n > 0 {
      OwnedKeeps(c, states, actions, n - 1);
      assert actions[..n] == actions[..n - 1] + [actions[n - 1]];
      OwnedStepKeeps(c, states[n - 1], actions[n - 1], BrokenInStages(actions[..n - 1]), AckLost(actions[..n - 1]));
    }
  }

  /** The exact conditions, whenever the worker waits or has ended: an event is acknowledged without
      having been handled -- and will not be delivered again -- if and only if the worker was
      interrupted in the stages and the acknowledgement took effect; an event is handled without
      being acknowledged -- and will be delivered again -- if and only if it was not interrupted there
      and the acknowledgement was cut off without effect. It is then the last event fetched. */
  lemma AcknowledgedExactly(c: Config, states: seq<Owned>, actions: seq<OwnedAction>)
    requires IsOwnedRun(c, states, actions)
    requires states[|actions|].worker == Waiting || states[|actions|].worker == Ended
    ensures var o := states[|actions|];
      && (|o.acked| > |o.handled| <==> BrokenInStages(actions) && !AckLost(actions))
      && (|o.acked| > |o.handled| ==> o.handled == o.acked[..|o.acked| - 1] && o.acked == o.fetched)
      && (|o.handled| > |o.acked| <==> !BrokenInStages(actions) && AckLost(actions))
      && (|o.handled| > |o.acked| ==> o.acked == o.handled[..|o.handled| - 1] && o.handled == o.fetched)
      && (|o.handled| == |o.acked| ==> o.handled == o.acked <= o.fetched)
  {
    OwnedKeeps(c, states, actions, |actions|);
    assert actions[..|actions|] == actions;
  }

  /** Both happen: the documented "never acknowledged" fails on the first run, and the second leaves a
      handled event to be delivered again. */
  lemma BothFailuresHappen(c: Config, e: Event) returns (lost: seq<Owned>, again: seq<Owned>)
    ensures IsOwnedRun(c, lost, [Fetch(e), BreakStages, AckReturns])
    ensures lost[3].acked == [e] && lost[3].handled == []
    ensures IsOwnedRun(c, again, [Fetch(e), StagesReturn, BreakAck(false)])
    ensures again[3].handled == [e] && again[3].acked == []
  {
    var start := Owned(Waiting, [], [], []);
    lost := [start, Owned(InStages(e, 0), [e], [], []), Owned(InAck(e, false), [e], [], []), Owned(Ended, [e], [], [e])];
    again := [start, Owned(InStages(e, 0), [e], [], []), Owned(InAck(e, true), [e], [e], []), Owned(Ended, [e], [e], [])];
  }
}
