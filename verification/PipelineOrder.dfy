/** Order and completeness in the worker pool of ulpf/core/pipeline.py: items are taken in the order in which
    they were put, the queue never exceeds its capacity, and an event is finished only after every stage of
    its worker has passed it on. */
module PipelineOrder {
  import opened Core
  import opened Pipeline

  // ----- first in, first out -----

  /** What a step puts at the end of the queue. */
  function PutBy(c: Config, s: State, a: Action): seq<Item> {
    match a
    case Submit(e) => if 0 < c.capacity <= |s.queue| then [] else [Work(e)]
    case Unblock(e) => [Work(e)]
    case SendSentinel => [Sentinel]
    case _ => []
  }

  function TakenBy(s: State, a: Action): seq<Item> {
    if a.Get? && s.queue != [] then [s.queue[0]] else []
  }

  function AllPut(c: Config, states: seq<State>, actions: seq<Action>, i: nat): seq<Item>
    requires i <= |actions| && i <= |states|
  {
    if i == 0 then [] else AllPut(c, states, actions, i - 1) + PutBy(c, states[i - 1], actions[i - 1])
  }

  function AllTaken(states: seq<State>, actions: seq<Action>, i: nat): seq<Item>
    requires i <= |actions| && i <= |states|
  {
    if i == 0 then [] else AllTaken(states, actions, i - 1) + TakenBy(states[i - 1], actions[i - 1])
  }

  lemma QueueStep(c: Config, s: State, a: Action)
    requires Enabled(c, s, a)
    ensures TakenBy(s, a) + Step(c, s, a).queue == s.queue + PutBy(c, s, a)
    ensures 0 < c.capacity && |s.queue| <= c.capacity ==> |Step(c, s, a).queue| <= c.capacity
  {}

  /** What was taken and what is still queued is what was put, item by item, in order; and a bounded queue
      stays within its bound. */
  lemma {:induction false} FirstInFirstOut(c: Config, states: seq<State>, actions: seq<Action>, i: nat)
    requires IsRun(c, states, actions) && i < |states|
    ensures AllPut(c, states, actions, i) == AllTaken(states, actions, i) + states[i].queue
    ensures c.capacity > 0 ==> |states[i].queue| <= c.capacity
  {
    if i > 0 {
      hide Step, Enabled, PutBy, TakenBy;
      FirstInFirstOut(c, states, actions, i - 1);
      var s, a := states[i - 1], actions[i - 1];
      QueueStep(c, s, a);
      SeqAssoc(AllTaken(states, actions, i - 1), s.queue, PutBy(c, s, a));
      SeqAssoc(AllTaken(states, actions, i - 1), TakenBy(s, a), states[i].queue);
    }
  }

  // ----- stopping -----

  /** `join` never waits for work that is not there. */
  lemma {:induction false} JoinNeverHangs(c: Config, states: seq<State>, actions: seq<Action>, i: nat)
    requires IsRun(c, states, actions) && i < |states|
    ensures states[i].phase.Joining? ==> (states[i].unfinished == 0 ==> states[i].phase.ready)
  {
    if i > 0 {
      hide Step, Enabled;
      JoinNeverHangs(c, states, actions, i - 1);
      RunKeeps(c, states, actions, i - 1, Event(0, false));
      JoinStep(c, states[i - 1], actions[i - 1]);
    }
  }

  lemma JoinStep(c: Config, s: State, a: Action)
    requires Enabled(c, s, a) && s.unfinished >= 0 && (s.phase.Joining? && s.unfinished == 0 ==> s.phase.ready)
    ensures var next := Step(c, s, a); next.phase.Joining? && next.unfinished == 0 ==> next.phase.ready
  {}

  ghost predicate LeadsTo(c: Config, s: State, actions: seq<Action>, t: State)
    decreases |actions|
  {
    if actions == [] then s == t
    else Enabled(c, s, actions[0]) && LeadsTo(c, Step(c, s, actions[0]), actions[1..], t)
  }

  lemma OneStep(c: Config, s: State, a: Action, rest: seq<Action>, t: State)
    requires Enabled(c, s, a) && LeadsTo(c, Step(c, s, a), rest, t)
    ensures LeadsTo(c, s, [a] + rest, t)
  {
    hide Enabled, Step;
    assert ([a] + rest)[1..] == rest;
  }

  /** The first n workers have ended, the others wait. */
  ghost predicate EndedUpTo(s: State, n: nat) {
    n <= |s.workers| && forall w :: 0 <= w < |s.workers| ==> s.workers[w] == if w < n then Exited else Idle
  }

  function Farewells(n: nat, count: nat): seq<Action>
    requires n <= count
    decreases count - n
  {
    if n == count then [AllSent, GatherReturns] else [SendSentinel] + ([Get(n)] + Farewells(n + 1, count))
  }

  lemma {:induction false} SendsAndGathers(c: Config, s: State, n: nat) returns (t: State)
    requires s.phase == Sending(n) && s.queue == [] && n <= c.workerCount == |s.workers| && EndedUpTo(s, n)
    ensures LeadsTo(c, s, Farewells(n, c.workerCount), t) && t.phase == Stopped
    decreases c.workerCount - n
  {
    if n == c.workerCount {
      t := s.(phase := Stopped);
      var sent := s.(phase := Gathering);
      assert LeadsTo(c, t, [], t);
      OneStep(c, sent, GatherReturns, [], t);
      OneStep(c, s, AllSent, [GatherReturns], t);
      assert [GatherReturns] + [] == [GatherReturns] && [AllSent] + [GatherReturns] == [AllSent, GatherReturns];
    } else {
      hide LeadsTo;
      var sent := Step(c, s, SendSentinel);
      assert sent.queue == [Sentinel];
      var gone := Step(c, sent, Get(n));
      assert gone.queue == [] && gone.phase == Sending(n + 1) && gone.workers == s.workers[n := Exited];
      t := SendsAndGathers(c, gone, n + 1);
      OneStep(c, sent, Get(n), Farewells(n + 1, c.workerCount), t);
      OneStep(c, s, SendSentinel, [Get(n)] + Farewells(n + 1, c.workerCount), t);
    }
  }

  /** An idle pool stops, whatever the capacity of its queue: one sentinel for each worker. */
  lemma IdleStops(c: Config, s: State) returns (t: State)
    requires s.phase == Running && s.queue == [] && s.unfinished == 0
    requires |s.workers| == c.workerCount && EndedUpTo(s, 0)
    ensures LeadsTo(c, s, [BeginStop] + ([JoinReturns] + Farewells(0, c.workerCount)), t) && t.phase == Stopped
  {
    hide LeadsTo;
    var joining := Step(c, s, BeginStop);
    var sending := Step(c, joining, JoinReturns);
    t := SendsAndGathers(c, sending, 0);
    OneStep(c, joining, JoinReturns, Farewells(0, c.workerCount), t);
    OneStep(c, s, BeginStop, [JoinReturns] + Farewells(0, c.workerCount), t);
  }

  // ----- every stage -----

  predicate By(a: Action, w: nat) {
    a == Get(w) || a == Pass(w) || a == Finish(w) || a == DropBy(w) || a == Raise(w)
  }

  function Passes(actions: seq<Action>, lo: nat, hi: nat, w: nat): nat
    requires lo <= hi <= |actions|
  {
    if lo == hi then 0 else Passes(actions, lo, hi - 1, w) + (if actions[hi - 1] == Pass(w) then 1 else 0)
  }

  /** Worker w took the event in step g and has since done nothing but pass it on k times. */
  ghost predicate HeldSince(states: seq<State>, actions: seq<Action>, g: nat, i: nat, w: nat, e: Event, k: nat) {
    && g < i <= |actions| && i < |states|
    && actions[g] == Get(w) && states[g].queue != [] && states[g].queue[0] == Work(e)
    && (forall j :: g < j < i && By(actions[j], w) ==> actions[j] == Pass(w))
    && Passes(actions, g + 1, i, w) == k
  }

  /** The workers after a step. */
  function WorkersAfter(s: State, a: Action): seq<Worker>
    requires (a.Get? ==> s.queue != []) && (a.Get? || a.Pass? || a.Finish? || a.DropBy? || a.Raise? ==> a.w < |s.workers|)
    requires a.Pass? ==> s.workers[a.w].Busy?
  {
    match a
    case Get(v) => s.workers[v := if s.queue[0].Sentinel? then Exited else Busy(s.queue[0].event, 0)]
    case Pass(v) => s.workers[v := Busy(s.workers[v].event, s.workers[v].stage + 1)]
    case Finish(v) => s.workers[v := Idle]
    case DropBy(v) => s.workers[v := Idle]
    case Raise(v) => s.workers[v := Idle]
    case _ => s.workers
  }

  lemma WorkerStep(c: Config, s: State, a: Action)
    requires Enabled(c, s, a)
    ensures (a.Get? ==> s.queue != []) && (a.Get? || a.Pass? || a.Finish? || a.DropBy? || a.Raise? ==> a.w < |s.workers|)
    ensures a.Pass? ==> s.workers[a.w].Busy? && s.workers[a.w].stage < c.stageCount
    ensures Step(c, s, a).workers == WorkersAfter(s, a)
  {}

  lemma HeldOn(states: seq<State>, actions: seq<Action>, g: nat, i: nat, w: nat, e: Event, k: nat)
    requires HeldSince(states, actions, g, i, w, e, k) && i < |actions| && i + 1 < |states|
    requires By(actions[i], w) ==> actions[i] == Pass(w)
    ensures HeldSince(states, actions, g, i + 1, w, e, if actions[i] == Pass(w) then k + 1 else k)
  {}

  lemma HeldAnew(states: seq<State>, actions: seq<Action>, i: nat, w: nat, e: Event)
    requires i < |actions| && i + 1 < |states| && actions[i] == Get(w)
    requires states[i].queue != [] && states[i].queue[0] == Work(e)
    ensures HeldSince(states, actions, i, i + 1, w, e, 0)
  {}

  /** A worker that holds an event has passed it on once for each stage behind it. */
  lemma {:induction false} BusySince(c: Config, states: seq<State>, actions: seq<Action>, i: nat, w: nat) returns (g: nat)
    requires IsRun(c, states, actions) && i < |states| && w < c.workerCount
    ensures |states[i].workers| == c.workerCount
    ensures states[i].workers[w].Busy? ==>
      && states[i].workers[w].stage <= c.stageCount
      && HeldSince(states, actions, g, i, w, states[i].workers[w].event, states[i].workers[w].stage)
  {
    g := 0;
    if i == 0 {
      AllIdle(Start(c).workers, Event(0, false));
    } else {
      hide IsRun, HeldSince;
      g := BusySince(c, states, actions, i - 1, w);
      g := BusyStep(c, states, actions, i - 1, w, g);
    }
  }

  lemma BusyStep(c: Config, states: seq<State>, actions: seq<Action>, i: nat, w: nat, before: nat) returns (g: nat)
    requires IsRun(c, states, actions) && i < |actions| && w < |states[i].workers|
    requires states[i].workers[w].Busy? ==>
      && states[i].workers[w].stage <= c.stageCount
      && HeldSince(states, actions, before, i, w, states[i].workers[w].event, states[i].workers[w].stage)
    ensures |states[i + 1].workers| == |states[i].workers|
    ensures states[i + 1].workers[w].Busy? ==>
      && states[i + 1].workers[w].stage <= c.stageCount
      && HeldSince(states, actions, g, i + 1, w, states[i + 1].workers[w].event, states[i + 1].workers[w].stage)
  {
    hide Step, Enabled, HeldSince;
    var s, a := states[i], actions[i];
    assert Enabled(c, s, a) && states[i + 1] == Step(c, s, a);
    hide IsRun;
    WorkerStep(c, s, a);
    g := before;
    if states[i + 1].workers[w].Busy? {
      if a == Get(w) {
        HeldAnew(states, actions, i, w, states[i + 1].workers[w].event);
        g := i;
      } else {
        HeldOn(states, actions, g, i, w, s.workers[w].event, s.workers[w].stage);
      }
    }
  }

  /** An event leaves as finished exactly after all stages, and as failed or dropped before the last of
      them; a dead letter names the stage that raised. */
  lemma LeavesAfter(c: Config, states: seq<State>, actions: seq<Action>, i: nat, w: nat) returns (g: nat, k: nat)
    requires IsRun(c, states, actions) && i < |actions|
    requires actions[i] == Finish(w) || actions[i] == DropBy(w) || actions[i] == Raise(w)
    ensures w < |states[i].workers| && states[i].workers[w].Busy?
    ensures var e := states[i].workers[w].event;
      && HeldSince(states, actions, g, i, w, e, k)
      && (actions[i] == Finish(w) <==> k == c.stageCount)
      && (actions[i] == Finish(w) ==> states[i + 1].finished == states[i].finished + multiset{e})
      && (actions[i] == DropBy(w) ==> states[i + 1].dropped == states[i].dropped + multiset{e})
      && (actions[i] == Raise(w) && e.raw ==> states[i + 1].dead == states[i].dead + [DeadLetter(e, k)])
      && (actions[i] == Raise(w) && !e.raw ==>
           states[i + 1].dead == states[i].dead && states[i + 1].discarded == states[i].discarded + multiset{e})
      && states[i + 1].workers[w] == Idle
  {
    WorkersCounted(c, states, actions, i);
    g := BusySince(c, states, actions, i, w);
    k := states[i].workers[w].stage;
  }

  lemma {:induction false} WorkersCounted(c: Config, states: seq<State>, actions: seq<Action>, i: nat)
    requires IsRun(c, states, actions) && i < |states|
    ensures |states[i].workers| == c.workerCount
  {
    if i > 0 {
      WorkersCounted(c, states, actions, i - 1);
    }
  }
}
