/** What every run of the sink of ulpf/sinks/clickhouse_sink.py keeps, and the two ways in which it can
    lose a row it accepted: a write between the spooling in `close` and its return, and a `close` that
    is cut off before it has spooled. */
module ClickHouseRuns {
  import opened ClickHouseSink
  import opened Core

  /** Never dropped: at every point of every interleaving, every accepted row is in the server, the
      spool or the buffer, except rows still buffered when the process ended; those were written after
      a `close` had spooled, or left behind by one that was cut off. */
  lemma NoRowDropped(c: Config, states: seq<State>, actions: seq<Action>, i: nat)
    requires c.batchRows >= 1 && IsRun(c, states, actions) && i < |states|
    ensures var s := states[i];
      && s.accepted <= s.server + SpoolRows(s.spool) + multiset(s.buffer) + s.lost
      && s.lost <= s.late + s.stranded
  {
    RunKeeps(c, states, actions, i);
  }

  // ----- runs in which nothing can be lost -----

  /** A write between the spooling and the end of `close`. */
  predicate InWindow(s: State, a: Action) {
    a.Append? && s.phase == Emptied
  }

  /** The process ends after a `close` that was cut off and not called again. */
  predicate EndsCutOff(s: State, a: Action) {
    a == Restart && s.phase == CutOff
  }

  ghost predicate Careful(states: seq<State>, actions: seq<Action>, from: nat, i: nat)
    requires i <= |actions| && i < |states|
  {
    forall j :: from <= j < i ==> !InWindow(states[j], actions[j]) && !EndsCutOff(states[j], actions[j])
  }

  lemma {:induction false} CarefulKeeps(c: Config, states: seq<State>, actions: seq<Action>, i: nat)
    requires Steps(c, states, actions) && i < |states| && Careful(states, actions, 0, i)
    ensures states[i].late == states[0].late && states[i].stranded == states[0].stranded
  {
    if i > 0 {
      CarefulKeeps(c, states, actions, i - 1);
    }
  }

  /** Without late or stranded rows nothing was lost, and nothing is left in memory once `close` spooled. */
  lemma NothingLate(s: State)
    requires OnlyLateRemain(s) && s.late == multiset{} && s.stranded == multiset{}
    ensures s.lost == multiset{} && (s.phase == Emptied || s.phase == Closed ==> s.buffer == [])
  {
    var left := if s.phase == Emptied || s.phase == Closed then multiset(s.buffer) else multiset{};
    assert |s.lost + left| == 0;
    assert |s.lost| == 0 && |left| == 0;
  }

  /** Nothing is ever lost in a run without a write in the window and without an end of the process
      after a `close` that was cut off. */
  lemma NothingLost(c: Config, states: seq<State>, actions: seq<Action>, i: nat)
    requires c.batchRows >= 1 && IsRun(c, states, actions) && i < |states| && Careful(states, actions, 0, i)
    ensures states[i].lost == multiset{} && states[i].late == multiset{} && states[i].stranded == multiset{}
  {
    hide Step, Enabled, OnlyLateRemain, Conserved, FlightIsFront, CloserDrains;
    RunKeeps(c, states, actions, i);
    CarefulKeeps(c, states, actions, i);
    NothingLate(states[i]);
  }

  /** After such a run and a `close` that returned, nothing is left in memory, and server and spool
      hold exactly the accepted rows plus the surplus copies. */
  lemma ClosedHasDelivered(c: Config, states: seq<State>, actions: seq<Action>, i: nat)
    requires c.batchRows >= 1 && IsRun(c, states, actions) && i < |states| && Careful(states, actions, 0, i)
    requires states[i].phase == Closed
    ensures var s := states[i];
      s.buffer == [] && s.flight.None? && s.server + SpoolRows(s.spool) == s.accepted + s.extra
  {
    RunKeeps(c, states, actions, i);
    NothingLost(c, states, actions, i);
    var s := states[i];
    NothingLate(s);
    assert s.server + SpoolRows(s.spool) + multiset(s.buffer) + s.lost == s.server + SpoolRows(s.spool);
  }

  /** And the restart takes it from there: every copy of a spooled row is back in the buffer, and
      server and buffer hold every accepted row, surplus copies included. */
  lemma CleanRestartResumes(c: Config, states: seq<State>, actions: seq<Action>, i: nat, row: Row)
    requires c.batchRows >= 1 && IsRun(c, states, actions) && i < |states| && Careful(states, actions, 0, i)
    requires states[i].phase == Closed
    ensures var next := Step(c, states[i], Restart);
      && next.spool == [] && multiset(next.buffer)[row] == SpoolRows(states[i].spool)[row]
      && next.server[row] + multiset(next.buffer)[row] == next.accepted[row] + next.extra[row]
  {
    ClosedHasDelivered(c, states, actions, i);
    ReloadRows(states[i].spool, []);
    var s := states[i];
    assert (s.server + SpoolRows(s.spool))[row] == (s.accepted + s.extra)[row];
  }

  // ----- the two ways to lose a row -----

  predicate Leads(c: Config, s: State, a: Action, next: State) {
    Enabled(s, a) && next == Step(c, s, a)
  }

  /** Every state of the window has a continuation that loses the row written there. */
  lemma WindowLoses(c: Config, s: State, row: Row)
    requires s.phase == Emptied
    ensures var written := Step(c, s, Append(row));
      var closed := Step(c, written, EndClose);
      && Enabled(s, Append(row)) && Enabled(written, EndClose) && Enabled(closed, Restart)
      && Step(c, closed, Restart).lost == s.lost + multiset(s.buffer) + multiset{row}
  {
    assert multiset(s.buffer + [row]) == multiset(s.buffer) + multiset{row};
  }

  /** Once a `close` was cut off, the end of the process loses all that is buffered, whenever it was
      written. */
  lemma CutOffLoses(c: Config, s: State)
    requires s.phase == CutOff
    ensures Enabled(s, Restart) && Step(c, s, Restart).lost == s.lost + multiset(s.buffer)
  {}

  /** Some continuation that starts by writing the row, in which nothing else is written in a window
      and no further `close` is cut off, ends with more rows lost. */
  ghost predicate CanLose(c: Config, s: State, row: Row) {
    exists states, actions :: LosesAfter(c, s, row, states, actions)
  }

  ghost predicate LosesAfter(c: Config, s: State, row: Row, states: seq<State>, actions: seq<Action>) {
    && Steps(c, states, actions) && states[0] == s
    && actions != [] && actions[0] == Append(row)
    && (forall j :: 1 <= j < |actions| ==> !InWindow(states[j], actions[j]) && !CutsOff(states[j], actions[j]))
    && states[|actions|].lost != s.lost
  }

  lemma WindowCanLose(c: Config, s: State, row: Row)
    requires s.phase == Emptied
    ensures CanLose(c, s, row)
  {
    hide Enabled, Step;
    WindowLoses(c, s, row);
    var written := Step(c, s, Append(row));
    var closed := Step(c, written, EndClose);
    var after := Step(c, closed, Restart);
    assert after.lost[row] > s.lost[row];
    assert LosesAfter(c, s, row, [s, written, closed, after], [Append(row), EndClose, Restart]);
  }

  lemma CutOffWriteLost(c: Config, s: State, row: Row) returns (written: State, after: State)
    requires s.phase == CutOff
    ensures Leads(c, s, Append(row), written) && Leads(c, written, Restart, after)
    ensures after.lost[row] > s.lost[row]
  {
    hide SpoolRows, Reload, Finish;
    written, after := Step(c, s, Append(row)), Step(c, s.(buffer := s.buffer + [row], accepted := s.accepted + multiset{row}), Restart);
    assert multiset(s.buffer + [row])[row] > 0;
  }

  lemma CutOffCanLose(c: Config, s: State, row: Row)
    requires s.phase == CutOff
    ensures CanLose(c, s, row)
  {
    hide Enabled, Step;
    var written, after := CutOffWriteLost(c, s, row);
    assert LosesAfter(c, s, row, [s, written, after], [Append(row), Restart]);
  }

  /** Only a step that cuts a `close` off leads to `CutOff`. */
  lemma {:induction false} NeverCutOff(c: Config, states: seq<State>, actions: seq<Action>, i: nat)
    requires Steps(c, states, actions) && i < |states| && states[0].phase != CutOff
    requires forall j :: 0 <= j < i ==> !CutsOff(states[j], actions[j])
    ensures states[i].phase != CutOff
  {
    hide Step, Enabled, CutsOff;
    if i > 0 {
      NeverCutOff(c, states, actions, i - 1);
      NotCutOffBy(c, states[i - 1], actions[i - 1]);
    }
  }

  lemma NotCutOffBy(c: Config, s: State, a: Action)
    requires Enabled(s, a) && s.phase != CutOff && !CutsOff(s, a)
    ensures Step(c, s, a).phase != CutOff
  {
    hide Reload, Take, Drop, InDoubt;
  }

  lemma OutsideCannotLose(c: Config, s: State, row: Row, states: seq<State>, actions: seq<Action>)
    requires c.batchRows >= 1 && Inv(s) && s.phase != Emptied && s.phase != CutOff
    requires s.late == multiset{} && s.stranded == multiset{}
    ensures !LosesAfter(c, s, row, states, actions)
  {
    hide Step, Enabled, OnlyLateRemain, Conserved, FlightIsFront, CloserDrains;
    if LosesAfter(c, s, row, states, actions) {
      forall j | 0 <= j < |actions|
        ensures !InWindow(states[j], actions[j]) && !EndsCutOff(states[j], actions[j])
      {
        NeverCutOff(c, states, actions, j);
      }
      StepsKeep(c, states, actions, |actions|);
      CarefulKeeps(c, states, actions, |actions|);
      NothingLate(s);
      NothingLate(states[|actions|]);
      assert false;
    }
  }

  /** The exact condition, over runs: in any reachable state in which nothing was lost or written in a
      window before, a write can be lost without a further `close` being cut off if and only if `close`
      has spooled and not returned, or was cut off. */
  lemma WriteLostExactly(c: Config, states: seq<State>, actions: seq<Action>, i: nat, row: Row)
    requires c.batchRows >= 1 && IsRun(c, states, actions) && i < |states| && Careful(states, actions, 0, i)
    requires Enabled(states[i], Append(row))
    ensures CanLose(c, states[i], row) <==> states[i].phase == Emptied || states[i].phase == CutOff
  {
    hide Step, Enabled, LosesAfter, Inv;
    var s := states[i];
    RunKeeps(c, states, actions, i);
    NothingLost(c, states, actions, i);
    if s.phase == Emptied {
      WindowCanLose(c, s, row);
    } else if s.phase == CutOff {
      CutOffCanLose(c, s, row);
    } else {
      forall later, taken
        ensures !LosesAfter(c, s, row, later, taken)
      {
        OutsideCannotLose(c, s, row, later, taken);
      }
    }
  }

  // ----- both happen -----

  lemma SixSteps(c: Config, states: seq<State>, actions: seq<Action>)
    requires |states| == 7 && |actions| == 6 && states[0] == START
    requires Leads(c, states[0], actions[0], states[1]) && Leads(c, states[1], actions[1], states[2])
    requires Leads(c, states[2], actions[2], states[3]) && Leads(c, states[3], actions[3], states[4])
    requires Leads(c, states[4], actions[4], states[5]) && Leads(c, states[5], actions[5], states[6])
    ensures IsRun(c, states, actions)
  {
    hide Enabled, Step;
  }

  function Written(row: Row): State {
    START.(buffer := [row], accepted := multiset{row})
  }

  lemma FirstWrite(c: Config, row: Row)
    ensures Leads(c, START, Append(row), Written(row))
  {}

  function CutOffWith(row: Row, timer: TimerTask): State {
    Written(row).(phase := CutOff, timer := timer)
  }

  function RowGone(row: Row): State {
    START.(accepted := multiset{row}, lost := multiset{row}, stranded := multiset{row})
  }

  lemma EndLoses(c: Config, row: Row, timer: TimerTask)
    ensures Leads(c, CutOffWith(row, timer), Restart, RowGone(row))
  {}

  lemma WrittenInWindow(c: Config, row: Row) returns (s1: State, s2: State, s3: State, s4: State)
    ensures Leads(c, START, BeginClose, s1) && Leads(c, s1, TimerGone, s2) && Leads(c, s2, SpoolRemaining, s3)
    ensures Leads(c, s3, Append(row), s4) && s4 == Written(row).(phase := Emptied, timer := Gone, late := multiset{row})
  {
    s1 := START.(phase := Closing);
    s2 := s1.(phase := Spooling, timer := Gone);
    s3 := s2.(phase := Emptied);
    s4 := Written(row).(phase := Emptied, timer := Gone, late := multiset{row});
  }

  lemma WindowEnds(c: Config, row: Row) returns (s5: State, s6: State)
    ensures var s4 := Written(row).(phase := Emptied, timer := Gone, late := multiset{row});
      Leads(c, s4, EndClose, s5) && Leads(c, s5, Restart, s6)
    ensures s6.accepted == multiset{row} && s6.lost == multiset{row}
  {
    s5 := Written(row).(phase := Closed, timer := Gone, late := multiset{row});
    s6 := START.(accepted := multiset{row}, late := multiset{row}, lost := multiset{row});
  }

  /** A row written while `close` awaits the client is accepted and gone after the restart. */
  lemma LateWriteCanBeLost(c: Config, row: Row) returns (states: seq<State>)
    ensures IsRun(c, states, [BeginClose, TimerGone, SpoolRemaining, Append(row), EndClose, Restart])
    ensures states[6].accepted == multiset{row} && states[6].lost == multiset{row}
  {
    hide Leads, IsRun;
    var s1, s2, s3, s4 := WrittenInWindow(c, row);
    var s5, s6 := WindowEnds(c, row);
    states := [START, s1, s2, s3, s4, s5, s6];
    SixSteps(c, states, [BeginClose, TimerGone, SpoolRemaining, Append(row), EndClose, Restart]);
  }

  lemma CancelledClose(c: Config, row: Row) returns (s2: State, s3: State, s4: State)
    requires c.batchRows >= 1
    ensures Leads(c, Written(row), BeginClose, s2) && Leads(c, s2, TimerGone, s3)
    ensures Leads(c, s3, Acquire(Closer), s4) && Leads(c, s4, Abort, CutOffWith(row, Gone))
  {
    hide Reload, SpoolRows;
    s2 := Written(row).(phase := Closing);
    s3 := Written(row).(phase := Draining(c.maxRetries + 2), timer := Gone);
    s4 := s3.(flight := Some(Flight(Closer, [row], 0, false)));
  }

  /** A row written long before `close`, which is cancelled while its POST is out: neither delivered nor
      spooled, and gone with the process. */
  lemma CancelledCloseLoses(c: Config, row: Row) returns (states: seq<State>)
    requires c.batchRows >= 1
    ensures IsRun(c, states, [Append(row), BeginClose, TimerGone, Acquire(Closer), Abort, Restart])
    ensures states[6].accepted == multiset{row} && states[6].lost == multiset{row}
    ensures states[6].server == multiset{} && states[6].buffer == [] && states[6].spool == []
  {
    hide Leads, IsRun;
    FirstWrite(c, row);
    var s2, s3, s4 := CancelledClose(c, row);
    EndLoses(c, row, Gone);
    states := [START, Written(row), s2, s3, s4, CutOffWith(row, Gone), RowGone(row)];
    SixSteps(c, states, [Append(row), BeginClose, TimerGone, Acquire(Closer), Abort, Restart]);
  }

  /** Once the timer has died, no `close` gets as far as spooling before the process ends. */
  lemma {:induction false} DeadTimerNeverCloses(c: Config, states: seq<State>, actions: seq<Action>, i: nat)
    requires Steps(c, states, actions) && i < |states| && Restart !in actions[..i]
    requires states[0].timer == Dead && StillOpen(states[0])
    ensures states[i].timer == Dead && StillOpen(states[i])
  {
    hide Step, Enabled;
    if i > 0 {
      assert actions[i - 1] == actions[..i][i - 1];
      assert actions[..i - 1] <= actions[..i];
      DeadTimerNeverCloses(c, states, actions, i - 1);
      DeadTimerStays(c, states[i - 1], actions[i - 1]);
    }
  }

  predicate StillOpen(s: State) {
    s.phase == Open || s.phase == Closing || s.phase == CutOff
  }

  lemma DeadTimerStays(c: Config, s: State, a: Action)
    requires Enabled(s, a) && a != Restart && s.timer == Dead && StillOpen(s)
    ensures Step(c, s, a).timer == Dead && StillOpen(Step(c, s, a))
  {
    hide Reload, Take, Drop, InDoubt;
  }

  lemma TimerDies(c: Config, row: Row) returns (s2: State, s3: State, s4: State)
    requires c.batchRows >= 1
    ensures Leads(c, Written(row), Acquire(Timer), s2) && Leads(c, s2, Abort, s3)
    ensures Leads(c, s3, BeginClose, s4) && Leads(c, s4, CloseRaises, CutOffWith(row, Dead))
  {
    hide Reload, SpoolRows;
    s2 := Written(row).(flight := Some(Flight(Timer, [row], 0, false)));
    s3 := Written(row).(timer := Dead);
    s4 := s3.(phase := Closing);
  }

  /** And one whose timer has died: `close` raises before it drains or spools. */
  lemma DeadTimerLoses(c: Config, row: Row) returns (states: seq<State>)
    requires c.batchRows >= 1
    ensures IsRun(c, states, [Append(row), Acquire(Timer), Abort, BeginClose, CloseRaises, Restart])
    ensures states[6].accepted == multiset{row} && states[6].lost == multiset{row}
    ensures states[6].server == multiset{} && states[6].buffer == [] && states[6].spool == []
  {
    hide Leads, IsRun;
    FirstWrite(c, row);
    var s2, s3, s4 := TimerDies(c, row);
    EndLoses(c, row, Dead);
    states := [START, Written(row), s2, s3, s4, CutOffWith(row, Dead), RowGone(row)];
    SixSteps(c, states, [Append(row), Acquire(Timer), Abort, BeginClose, CloseRaises, Restart]);
  }
}
