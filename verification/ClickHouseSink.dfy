/** The never-drop sink of ulpf/sinks/clickhouse_sink.py as a transition system.

    A step is the code between two awaits, so writers, the timer, `flush` and `close` interleave
    freely at every await, and any of them may be cancelled there: a drain while its POST is out or
    between two attempts, `close` also while it waits for the lock or for the client. Waiting for
    the timer, `close` swallows its cancellation, but not the error of a timer that died; a writer
    that waits for the lock has nothing to undo. An accepted row can be in the server, in the spool
    or in the buffer. */
module ClickHouseSink {
  import opened Core

  /** One JSONEachRow object. */
  datatype Row = Row(json: string)

  type Rows = seq<Row>

  // ----- state -----

  /** Who holds the flush lock; writers and `flush` are workers. */
  datatype Owner = Worker | Timer | Closer

  /** A drain that awaits the reply to a POST of `batch`; `ingested` tells whether the server has
      taken in the rows of the current attempt. */
  datatype Flight = Flight(owner: Owner, batch: Rows, attempt: nat, ingested: bool)

  /** `close` first awaits the timer, then drains, then spools the rest and awaits the client. In
      `Spooling` it does not yield. `CutOff` is where a `close` that was cancelled or raised leaves the
      sink: it still takes rows, and `close` may be called again. */
  datatype Phase = Open | Closing | Draining(left: nat) | Spooling | Emptied | Closed | CutOff

  /** The timer task runs, has died of an error, or was awaited by `close`. */
  datatype TimerTask = Alive | Dead | Gone

  datatype State = State(
    phase: Phase,
    timer: TimerTask,
    buffer: Rows,
    flight: Option<Flight>,
    server: multiset<Row>,
    spool: seq<Rows>,
    accepted: multiset<Row>,  // every row `write` has taken
    extra: multiset<Row>,     // surplus copies: taken by the server, reply lost or abandoned
    late: multiset<Row>,      // rows taken after `close` had spooled the buffer
    stranded: multiset<Row>,  // rows buffered when the process ended after a `close` that was cut off
    lost: multiset<Row>)      // rows still buffered when the process ended

  datatype Config = Config(batchRows: nat, maxRetries: nat)

  const START := State(Open, Alive, [], None, multiset{}, [], multiset{}, multiset{}, multiset{}, multiset{}, multiset{})

  function SpoolRows(spool: seq<Rows>): multiset<Row> {
    if spool == [] then multiset{}
    else SpoolRows(spool[..|spool| - 1]) + multiset(spool[|spool| - 1])
  }

  /** Rows that are both in the server and in the buffer while the reply is awaited. */
  function InDoubt(s: State): multiset<Row> {
    if s.flight.Some? && s.flight.value.ingested then multiset(s.flight.value.batch) else multiset{}
  }

  // ----- steps -----

  datatype Action =
    | Append(row: Row)      // write: the row enters the buffer
    | Acquire(owner: Owner) // _drain_once: lock taken, batch snapshot, POST sent
    | Ingest                // the server takes the rows in
    | ReplyOk               // a success reply arrives
    | ReplyRetryable        // transport error, 5xx, 429 or failed DDL
    | ReplyFatal            // any other reply
    | Abort                 // the drain is cancelled or raises
    | BeginClose
    | TimerGone             // the cancelled timer has ended
    | CloseFindsEmpty       // close gets the lock and finds nothing to drain
    | SpoolRemaining        // close writes what is left to the spool
    | CancelClose           // close is cancelled while it waits for the lock or for the client
    | CloseRaises           // its timer died, its spool file cannot be written, or closing the client fails
    | EndClose
    | Restart               // the process ends and a new sink starts

  predicate Enabled(s: State, a: Action) {
    match a
    case Append(_) => s.phase != Closed && s.phase != Spooling
    case Acquire(owner) =>
      && s.flight.None? && s.buffer != [] && s.phase != Spooling
      && (owner == Closer ==> s.phase.Draining?)
      && (owner == Timer ==> s.phase == Open && s.timer == Alive)
    case Ingest => s.flight.Some? && !s.flight.value.ingested
    case ReplyOk => s.flight.Some? && s.flight.value.ingested
    case ReplyRetryable => s.flight.Some?
    case ReplyFatal => s.flight.Some?
    case Abort => s.flight.Some?
    case BeginClose => s.phase == Open || s.phase == CutOff
    case TimerGone => s.phase == Closing && s.timer != Dead
    case CloseFindsEmpty => s.phase.Draining? && s.flight.None? && s.buffer == []
    case SpoolRemaining => s.phase == Spooling
    case CancelClose => (s.phase.Draining? && !DrainedBy(s, Closer)) || s.phase == Emptied
    case CloseRaises =>
      || (s.phase == Closing && s.timer == Dead)
      || (s.phase == Spooling && s.buffer != [])
      || s.phase == Emptied
    case EndClose => s.phase == Emptied
    case Restart => s.phase == Closed || s.phase == CutOff
  }

  predicate DrainedBy(s: State, owner: Owner) {
    s.flight.Some? && s.flight.value.owner == owner
  }

  /** Does the step end a `close` before it has spooled or before it returns? */
  predicate CutsOff(s: State, a: Action) {
    a == CancelClose || a == CloseRaises || (a == Abort && DrainedBy(s, Closer))
  }

  function Take(n: nat, rows: Rows): Rows {
    if n < |rows| then rows[..n] else rows
  }

  function Drop(n: nat, rows: Rows): Rows {
    if n < |rows| then rows[n..] else []
  }

  /** The lock is released and the batch stays in the buffer; what the server has taken of it is
      a surplus copy from now on. */
  function Release(s: State): State {
    s.(flight := None, extra := s.extra + InDoubt(s))
  }

  function SpoolRest(s: State): State {
    s.(phase := Emptied, buffer := [], spool := if s.buffer == [] then s.spool else s.spool + [s.buffer])
  }

  /** After a drain of its own, `close` goes on without yielding: once the buffer is empty or its
      drains are used up it spools the rest, otherwise it drains again. */
  function Finish(s: State, owner: Owner): State {
    if owner == Closer && s.phase.Draining?
    then s.(phase := if s.buffer == [] || s.phase.left <= 1 then Spooling else Draining(s.phase.left - 1))
    else s
  }

  /** `_reload_spool`: each file is put in front of the buffer, then removed. */
  function Reload(spool: seq<Rows>, buffer: Rows): Rows {
    if spool == [] then buffer else Reload(spool[1..], spool[0] + buffer)
  }

  function Step(c: Config, s: State, a: Action): State
    requires Enabled(s, a)
  {
    match a
    case Append(row) =>
      s.(buffer := s.buffer + [row], accepted := s.accepted + multiset{row},
         late := if s.phase == Emptied then s.late + multiset{row} else s.late)
    case Acquire(owner) => s.(flight := Some(Flight(owner, Take(c.batchRows, s.buffer), 0, false)))
    case Ingest =>
      s.(server := s.server + multiset(s.flight.value.batch), flight := Some(s.flight.value.(ingested := true)))
    case ReplyOk =>
      Finish(s.(flight := None, buffer := Drop(|s.flight.value.batch|, s.buffer)), s.flight.value.owner)
    case ReplyRetryable =>
      if s.flight.value.attempt < c.maxRetries
      then s.(extra := s.extra + InDoubt(s),
              flight := Some(s.flight.value.(attempt := s.flight.value.attempt + 1, ingested := false)))
      else Finish(Release(s), s.flight.value.owner)
    case ReplyFatal =>
      Finish(Release(s).(spool := s.spool + [s.flight.value.batch],
                         buffer := Drop(|s.flight.value.batch|, s.buffer)),
             s.flight.value.owner)
    case Abort =>
      Release(s).(phase := if DrainedBy(s, Closer) then CutOff else s.phase,
                  timer := if DrainedBy(s, Timer) then Dead else s.timer)
    case BeginClose => s.(phase := Closing)
    case TimerGone =>
      var r := (if DrainedBy(s, Timer) then Release(s) else s).(timer := Gone);
      r.(phase := if r.buffer == [] then Spooling else Draining(c.maxRetries + 2))
    case CloseFindsEmpty => s.(phase := Spooling)
    case SpoolRemaining => SpoolRest(s)
    case CancelClose => s.(phase := CutOff)
    case CloseRaises => s.(phase := CutOff)
    case EndClose => s.(phase := Closed)
    case Restart =>
      var buffered := multiset(s.buffer);
      Release(s).(phase := Open, timer := Alive, buffer := Reload(s.spool, []), spool := [], lost := s.lost + buffered,
                  stranded := if s.phase == CutOff then s.stranded + buffered else s.stranded)
  }

  // ----- invariants -----

  /** The batch in flight is still the front of the buffer: nobody else removes or inserts there. */
  ghost predicate FlightIsFront(s: State) {
    s.flight.Some? ==> s.flight.value.batch != [] && s.flight.value.batch <= s.buffer
  }

  /** Row for row, nothing is lost and nothing is invented. */
  ghost predicate Conserved(s: State) {
    s.server + SpoolRows(s.spool) + multiset(s.buffer) + s.lost == s.accepted + s.extra + InDoubt(s)
  }

  /** Once `close` has spooled, whatever is in the buffer came later; only such rows, and those that a
      `close` that was cut off left behind, get lost. */
  ghost predicate OnlyLateRemain(s: State) {
    s.lost + (if s.phase == Emptied || s.phase == Closed then multiset(s.buffer) else multiset{}) <= s.late + s.stranded
  }

  /** A drain by `close` only runs while it is draining, and none does while it spools. */
  ghost predicate CloserDrains(s: State) {
    (DrainedBy(s, Closer) ==> s.phase.Draining?) && (s.phase == Spooling ==> s.flight.None?)
  }

  ghost predicate Inv(s: State) {
    FlightIsFront(s) && Conserved(s) && OnlyLateRemain(s) && CloserDrains(s)
  }

  lemma SplitFront(batch: Rows, buffer: Rows)
    requires batch <= buffer
    ensures multiset(buffer) == multiset(batch) + multiset(Drop(|batch|, buffer))
  {
    assert buffer == batch + Drop(|batch|, buffer);
  }

  lemma SpoolSnoc(spool: seq<Rows>, rows: Rows)
    ensures SpoolRows(spool + [rows]) == SpoolRows(spool) + multiset(rows)
  {
    assert (spool + [rows])[..|spool|] == spool;
  }

  lemma {:induction false} ReloadRows(spool: seq<Rows>, buffer: Rows)
    ensures multiset(Reload(spool, buffer)) == SpoolRows(spool) + multiset(buffer)
    decreases |spool|
  {
    if spool != [] {
      ReloadRows(spool[1..], spool[0] + buffer);
      SpoolCons(spool);
    }
  }

  lemma {:induction false} SpoolCons(spool: seq<Rows>)
    requires spool != []
    ensures SpoolRows(spool) == multiset(spool[0]) + SpoolRows(spool[1..])
  {
    if |spool| > 1 {
      SpoolCons(spool[..|spool| - 1]);
      assert spool[..|spool| - 1][1..] == spool[1..][..|spool| - 2];
    }
  }

  lemma SpoolRestKeeps(s: State)
    requires Inv(s) && s.flight.None?
    ensures Inv(SpoolRest(s)) && SpoolRest(s).buffer == []
  {
    SpoolSnoc(s.spool, s.buffer);
  }

  lemma FinishKeeps(s: State, owner: Owner)
    requires Inv(s) && s.flight.None?
    ensures Inv(Finish(s, owner))
  {}

  lemma ReleaseKeeps(s: State)
    requires Inv(s)
    ensures Inv(Release(s)) && Release(s).flight.None?
  {}

  lemma MoreOnBoth(a: multiset<Row>, b: multiset<Row>, more: multiset<Row>)
    requires a <= b
    ensures a + more <= b + more
  {}

  lemma AppendKeeps(c: Config, s: State, row: Row)
    requires Inv(s) && Enabled(s, Append(row))
    ensures Inv(Step(c, s, Append(row)))
  {
    var next := Step(c, s, Append(row));
    var one := multiset{row};
    assert multiset(next.buffer) == multiset(s.buffer) + one;
    assert InDoubt(next) == InDoubt(s);
    assert s.server + SpoolRows(s.spool) + (multiset(s.buffer) + one) + s.lost
        == (s.server + SpoolRows(s.spool) + multiset(s.buffer) + s.lost) + one;
    assert (s.accepted + one) + s.extra + InDoubt(s) == (s.accepted + s.extra + InDoubt(s)) + one;
    if s.phase == Emptied {
      assert s.lost + (multiset(s.buffer) + one) == (s.lost + multiset(s.buffer)) + one;
      assert (s.late + one) + s.stranded == (s.late + s.stranded) + one;
      MoreOnBoth(s.lost + multiset(s.buffer), s.late + s.stranded, one);
    }
  }

  lemma IngestKeeps(c: Config, s: State)
    requires Inv(s) && Enabled(s, Ingest)
    ensures Inv(Step(c, s, Ingest))
  {
    var batch := multiset(s.flight.value.batch);
    assert (s.server + batch) + SpoolRows(s.spool) + multiset(s.buffer) + s.lost
        == (s.server + SpoolRows(s.spool) + multiset(s.buffer) + s.lost) + batch;
  }

  lemma ReplyOkKeeps(c: Config, s: State)
    requires Inv(s) && Enabled(s, ReplyOk)
    ensures Inv(Step(c, s, ReplyOk))
  {
    var batch, rest := multiset(s.flight.value.batch), Drop(|s.flight.value.batch|, s.buffer);
    SplitFront(s.flight.value.batch, s.buffer);
    assert (s.server + SpoolRows(s.spool) + multiset(rest) + s.lost) + batch
        == s.server + SpoolRows(s.spool) + multiset(s.buffer) + s.lost;
    Cancel(s.server + SpoolRows(s.spool) + multiset(rest) + s.lost, s.accepted + s.extra, batch);
    FinishKeeps(s.(flight := None, buffer := Drop(|s.flight.value.batch|, s.buffer)), s.flight.value.owner);
  }

  lemma ReplyFatalKeeps(c: Config, s: State)
    requires Inv(s) && Enabled(s, ReplyFatal)
    ensures Inv(Step(c, s, ReplyFatal))
  {
    ReleaseKeeps(s);
    SplitFront(s.flight.value.batch, s.buffer);
    SpoolSnoc(s.spool, s.flight.value.batch);
    FinishKeeps(Release(s).(spool := s.spool + [s.flight.value.batch],
                            buffer := Drop(|s.flight.value.batch|, s.buffer)),
                s.flight.value.owner);
  }

  lemma TimerGoneKeeps(c: Config, s: State)
    requires Inv(s) && Enabled(s, TimerGone)
    ensures Inv(Step(c, s, TimerGone))
  {
    ReleaseKeeps(s);
  }

  lemma RestartKeeps(c: Config, s: State)
    requires Inv(s) && Enabled(s, Restart)
    ensures Inv(Step(c, s, Restart))
  {
    hide Conserved, OnlyLateRemain, SpoolRows, Reload, InDoubt;
    RestartConserves(c, s);
    RestartLosesLate(c, s);
  }

  lemma RestartConserves(c: Config, s: State)
    requires Conserved(s) && Enabled(s, Restart)
    ensures Conserved(Step(c, s, Restart))
  {
    hide Reload, OnlyLateRemain;
    var buffered := multiset(s.buffer);
    ReloadRows(s.spool, []);
    assert s.server + multiset{} + SpoolRows(s.spool) + (s.lost + buffered)
        == s.server + SpoolRows(s.spool) + buffered + s.lost;
    assert s.accepted + (s.extra + InDoubt(s)) + multiset{} == s.accepted + s.extra + InDoubt(s);
  }

  lemma RestartLosesLate(c: Config, s: State)
    requires OnlyLateRemain(s) && Enabled(s, Restart)
    ensures OnlyLateRemain(Step(c, s, Restart))
  {
    hide Reload, Conserved, SpoolRows;
    var buffered := multiset(s.buffer);
    if s.phase == CutOff {
      assert s.late + (s.stranded + buffered) == (s.late + s.stranded) + buffered;
      MoreOnBoth(s.lost, s.late + s.stranded, buffered);
    }
  }

  lemma RetryKeeps(c: Config, s: State)
    requires Inv(s) && Enabled(s, ReplyRetryable)
    ensures Inv(Step(c, s, ReplyRetryable))
  {
    ReleaseKeeps(s);
    FinishKeeps(Release(s), s.flight.value.owner);
  }

  lemma AbortKeeps(c: Config, s: State)
    requires Inv(s) && Enabled(s, Abort)
    ensures Inv(Step(c, s, Abort))
  {
    ReleaseKeeps(s);
  }

  /** The other steps move no row, but for the snapshot of a batch and the spooling of what is left. */
  lemma OtherKeeps(c: Config, s: State, a: Action)
    requires c.batchRows >= 1 && Inv(s) && Enabled(s, a)
    requires a.Acquire? || a.BeginClose? || a.CloseFindsEmpty? || a.SpoolRemaining? || a.CancelClose? || a.CloseRaises? || a.EndClose?
    ensures Inv(Step(c, s, a))
  {
    if a.SpoolRemaining? {
      SpoolRestKeeps(s);
    }
  }

  /** Every step keeps the invariants, whoever takes it. */
  lemma StepKeeps(c: Config, s: State, a: Action)
    requires c.batchRows >= 1 && Inv(s) && Enabled(s, a)
    ensures Inv(Step(c, s, a))
  {
    hide *;
    match a {
      case Append(row) => AppendKeeps(c, s, row);
      case Ingest => IngestKeeps(c, s);
      case ReplyOk => ReplyOkKeeps(c, s);
      case ReplyRetryable => RetryKeeps(c, s);
      case ReplyFatal => ReplyFatalKeeps(c, s);
      case TimerGone => TimerGoneKeeps(c, s);
      case Abort => AbortKeeps(c, s);
      case Restart => RestartKeeps(c, s);
      case _ => OtherKeeps(c, s, a);
    }
  }

  /** The file reloaded last comes first. */
  lemma {:induction false} ReloadPutsInFront(files: seq<Rows>, file: Rows, buffer: Rows)
    ensures Reload(files + [file], buffer) == file + Reload(files, buffer)
    ensures Reload([], buffer) == buffer
    decreases |files|
  {
    if files == [] {
      assert files + [file] == [file] && [file][1..] == [];
    } else {
      assert (files + [file])[1..] == files[1..] + [file];
      ReloadPutsInFront(files[1..], file, files[0] + buffer);
    }
  }

  // ----- the reload loop -----

  method ReloadSpool(files: seq<Rows>, buffered: Rows) returns (buffer: Rows, left: seq<Rows>)
    ensures buffer == Reload(files, buffered) && left == []
    ensures multiset(buffer) == SpoolRows(files) + multiset(buffered)
  {
    buffer, left := buffered, files;
    while left != []
      invariant Reload(left, buffer) == Reload(files, buffered)
      decreases |left|
    {
      buffer := left[0] + buffer;
      left := left[1..];
    }
    ReloadRows(files, buffered);
  }

  // ----- runs -----

  /** `actions` lead from the first of `states` to the last. */
  ghost predicate Steps(c: Config, states: seq<State>, actions: seq<Action>) {
    && |states| == |actions| + 1
    && forall i :: 0 <= i < |actions| ==>
         Enabled(states[i], actions[i]) && states[i + 1] == Step(c, states[i], actions[i])
  }

  ghost predicate IsRun(c: Config, states: seq<State>, actions: seq<Action>) {
    Steps(c, states, actions) && states[0] == START
  }

  lemma {:induction false} StepsKeep(c: Config, states: seq<State>, actions: seq<Action>, i: nat)
    requires c.batchRows >= 1 && Steps(c, states, actions) && i < |states| && Inv(states[0])
    ensures Inv(states[i])
  {
    if i > 0 {
      StepsKeep(c, states, actions, i - 1);
      StepKeeps(c, states[i - 1], actions[i - 1]);
    }
  }

  lemma RunKeeps(c: Config, states: seq<State>, actions: seq<Action>, i: nat)
    requires c.batchRows >= 1 && IsRun(c, states, actions) && i < |states|
    ensures Inv(states[i])
  {
    StepsKeep(c, states, actions, i);
  }
}
