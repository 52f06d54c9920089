/** How far the drains of ulpf/sinks/clickhouse_sink.py get: a batch is the front of the buffer, a server
    that answers receives everything, a batch it rejects is spooled, and a `close` that finds no server
    gives up after a fixed number of attempts and spools the rest. */
module ClickHouseProgress {
  import opened ClickHouseSink
  import opened Core

  /** Runs from one state to another. */
  ghost predicate LeadsTo(c: Config, s: State, actions: seq<Action>, t: State)
    decreases |actions|
  {
    if actions == [] then s == t
    else Enabled(s, actions[0]) && LeadsTo(c, Step(c, s, actions[0]), actions[1..], t)
  }

  lemma {:induction false} LeadsOn(c: Config, s: State, a: seq<Action>, t: State, b: seq<Action>, u: State)
    requires LeadsTo(c, s, a, t) && LeadsTo(c, t, b, u)
    ensures LeadsTo(c, s, a + b, u)
    decreases |a|
  {
    hide Enabled, Step;
    if a == [] {
      assert a + b == b;
    } else {
      assert (a + b)[1..] == a[1..] + b && (a + b)[0] == a[0];
      LeadsOn(c, Step(c, s, a[0]), a[1..], t, b, u);
    }
  }

  lemma OneStep(c: Config, s: State, a: Action)
    requires Enabled(s, a)
    ensures LeadsTo(c, s, [a], Step(c, s, a))
  {
    hide Enabled, Step;
    assert [a][1..] == [] && LeadsTo(c, Step(c, s, a), [], Step(c, s, a));
  }

  // ----- one drain -----

  /** A drain takes the first rows of the buffer, as many as a batch holds. */
  lemma BatchIsFront(c: Config, s: State, owner: Owner)
    requires Enabled(s, Acquire(owner))
    ensures var n := if c.batchRows < |s.buffer| then c.batchRows else |s.buffer|;
      Step(c, s, Acquire(owner)) == s.(flight := Some(Flight(owner, s.buffer[..n], 0, false)))
  {
    assert s.buffer[..|s.buffer|] == s.buffer;
  }

  /** A batch that the server rejects for good leaves the buffer for the spool. */
  lemma RejectedIsSpooled(c: Config, s: State)
    requires Enabled(s, ReplyFatal) && s.flight.value.batch <= s.buffer
    ensures var next, batch := Step(c, s, ReplyFatal), s.flight.value.batch;
      && next.flight == None && next.spool == s.spool + [batch] && next.buffer == s.buffer[|batch|..]
      && next.server == s.server
  {
    hide SpoolRows, Reload;
  }

  function Retries(n: nat): (a: seq<Action>)
    ensures |a| == n && forall i :: 0 <= i < n ==> a[i] == ReplyRetryable
  {
    if n == 0 then [] else [ReplyRetryable] + Retries(n - 1)
  }

  /** A failed attempt is repeated until the retries are used up; then the batch stays in the buffer. */
  lemma {:induction false} RetriesExactly(c: Config, s: State, n: nat)
    requires s.flight.Some? && !s.flight.value.ingested && s.flight.value.attempt + n == c.maxRetries + 1
    ensures var unlocked := s.(flight := None); LeadsTo(c, s, Retries(n), if n == 0 then s else Finish(unlocked, s.flight.value.owner))
    decreases n
  {
    if n > 0 {
      hide Finish, SpoolRows, Reload;
      var next := Step(c, s, ReplyRetryable);
      assert s.extra + InDoubt(s) == s.extra;
      assert Retries(n) == [ReplyRetryable] + Retries(n - 1) && Retries(n)[1..] == Retries(n - 1);
      if n > 1 {
        assert next == s.(flight := Some(s.flight.value.(attempt := s.flight.value.attempt + 1)));
        RetriesExactly(c, next, n - 1);
        assert next.(flight := None) == s.(flight := None);
      }
    }
  }

  // ----- a server that answers -----

  /** One drain by a writer or `flush` moves one batch to the server. */
  lemma DrainDelivers(c: Config, s: State)
    requires c.batchRows >= 1 && s.phase == Open && s.flight == None && s.buffer != []
    ensures var n := if c.batchRows < |s.buffer| then c.batchRows else |s.buffer|;
      LeadsTo(c, s, [Acquire(Worker), Ingest, ReplyOk],
              s.(buffer := s.buffer[n..], server := s.server + multiset(s.buffer[..n])))
  {
    hide LeadsTo, SpoolRows, Reload;
    var n := if c.batchRows < |s.buffer| then c.batchRows else |s.buffer|;
    var batch := s.buffer[..n];
    var posted := s.(flight := Some(Flight(Worker, batch, 0, false)));
    var taken := posted.(server := s.server + multiset(batch), flight := Some(Flight(Worker, batch, 0, true)));
    var done := s.(buffer := s.buffer[n..], server := s.server + multiset(batch));
    BatchIsFront(c, s, Worker);
    OneStep(c, s, Acquire(Worker));
    OneStep(c, posted, Ingest);
    OneStep(c, taken, ReplyOk);
    LeadsOn(c, s, [Acquire(Worker)], posted, [Ingest], taken);
    LeadsOn(c, s, [Acquire(Worker)] + [Ingest], taken, [ReplyOk], done);
    assert [Acquire(Worker)] + [Ingest] + [ReplyOk] == [Acquire(Worker), Ingest, ReplyOk];
  }

  function Drains(n: nat): seq<Action> {
    if n == 0 then [] else [Acquire(Worker), Ingest, ReplyOk] + Drains(n - 1)
  }

  /** Batches needed for so many rows. */
  function Batches(c: Config, rows: nat): nat
    requires c.batchRows >= 1
  {
    (rows + c.batchRows - 1) / c.batchRows
  }

  lemma OneBatchLess(c: Config, rows: nat)
    requires c.batchRows >= 1 && rows > 0
    ensures Batches(c, rows) == 1 + Batches(c, if c.batchRows < rows then rows - c.batchRows else 0)
    ensures Batches(c, 0) == 0
  {
    var b := c.batchRows;
    if b < rows {
      var r := rows - b + b - 1;
      assert rows + b - 1 == b * (1 + r / b) + r % b by {
        assert r == b * (r / b) + r % b;
        assert b * (1 + r / b) == b + b * (r / b);
      }
      DivUnique(rows + b - 1, b, 1 + r / b, r % b);
    } else {
      DivUnique(rows + b - 1, b, 1, rows - 1);
    }
    DivUnique(b - 1, b, 0, b - 1);
  }

  /** `flush` with a server that answers: as many drains as there are batches deliver the whole buffer, each
      row once. */
  lemma {:induction false} FlushDelivers(c: Config, s: State)
    requires c.batchRows >= 1 && s.phase == Open && s.flight == None
    ensures LeadsTo(c, s, Drains(Batches(c, |s.buffer|)),
                    s.(buffer := [], server := s.server + multiset(s.buffer)))
    decreases |s.buffer|
  {
    hide Enabled, Step, Batches;
    if s.buffer == [] {
      OneBatchLess(c, 1);
      assert s == s.(buffer := [], server := s.server + multiset(s.buffer));
    } else {
      OneBatchLess(c, |s.buffer|);
      var n := if c.batchRows < |s.buffer| then c.batchRows else |s.buffer|;
      var next := s.(buffer := s.buffer[n..], server := s.server + multiset(s.buffer[..n]));
      DrainDelivers(c, s);
      FlushDelivers(c, next);
      assert s.buffer == s.buffer[..n] + s.buffer[n..];
      assert next.server + multiset(next.buffer) == s.server + multiset(s.buffer);
      LeadsOn(c, s, [Acquire(Worker), Ingest, ReplyOk], next, Drains(Batches(c, |next.buffer|)),
              s.(buffer := [], server := s.server + multiset(s.buffer)));
    }
  }

  // ----- a close without a server -----

  function Failing(c: Config, n: nat): seq<Action> {
    if n == 0 then [] else [Acquire(Closer)] + Retries(c.maxRetries + 1) + Failing(c, n - 1)
  }

  lemma DrainFails(c: Config, s: State, left: nat)
    requires c.batchRows >= 1 && s.phase == Draining(left) && s.flight == None && s.buffer != []
    ensures LeadsTo(c, s, [Acquire(Closer)] + Retries(c.maxRetries + 1),
                    s.(phase := if left <= 1 then Spooling else Draining(left - 1)))
  {
    hide LeadsTo, SpoolRows, Reload;
    var posted := Step(c, s, Acquire(Closer));
    OneStep(c, s, Acquire(Closer));
    RetriesExactly(c, posted, c.maxRetries + 1);
    assert posted.(flight := None) == s;
    LeadsOn(c, s, [Acquire(Closer)], posted, Retries(c.maxRetries + 1), Finish(s, Closer));
  }

  lemma {:induction false} DrainsFail(c: Config, s: State, left: nat)
    requires c.batchRows >= 1 && s.phase == Draining(left) && left >= 1 && s.flight == None && s.buffer != []
    ensures LeadsTo(c, s, Failing(c, left), s.(phase := Spooling))
    decreases left
  {
    hide Enabled, Step, LeadsTo;
    DrainFails(c, s, left);
    var one := [Acquire(Closer)] + Retries(c.maxRetries + 1);
    if left == 1 {
      assert one + Failing(c, 0) == one;
    } else {
      var next := s.(phase := Draining(left - 1));
      DrainsFail(c, next, left - 1);
      assert next.(phase := Spooling) == s.(phase := Spooling);
      LeadsOn(c, s, one, next, Failing(c, left - 1), s.(phase := Spooling));
    }
  }

  /** Unreachable at shutdown, for the first `close` or for one after another was cut off: `close` tries max_retries + 2 drains of max_retries + 1 attempts each, then
      writes all rows to one spool file, and nothing is left in memory. */
  lemma CloseSpools(c: Config, s: State)
    requires c.batchRows >= 1 && (s.phase == Open || s.phase == CutOff) && s.timer != Dead
    requires s.flight == None && s.buffer != []
    ensures LeadsTo(c, s, [BeginClose, TimerGone] + Failing(c, c.maxRetries + 2) + [SpoolRemaining, EndClose],
                    s.(phase := Closed, timer := Gone, buffer := [], spool := s.spool + [s.buffer]))
  {
    hide LeadsTo, SpoolRows, Reload, Finish;
    var closing := s.(phase := Closing);
    var draining := s.(phase := Draining(c.maxRetries + 2), timer := Gone);
    var spooling := draining.(phase := Spooling);
    var emptied := s.(phase := Emptied, timer := Gone, buffer := [], spool := s.spool + [s.buffer]);
    var closed := emptied.(phase := Closed);
    OneStep(c, s, BeginClose);
    OneStep(c, closing, TimerGone);
    OneStep(c, spooling, SpoolRemaining);
    OneStep(c, emptied, EndClose);
    hide Step, Enabled;
    LeadsOn(c, s, [BeginClose], closing, [TimerGone], draining);
    assert [BeginClose] + [TimerGone] == [BeginClose, TimerGone];
    DrainsFail(c, draining, c.maxRetries + 2);
    LeadsOn(c, s, [BeginClose, TimerGone], draining, Failing(c, c.maxRetries + 2), spooling);
    LeadsOn(c, spooling, [SpoolRemaining], emptied, [EndClose], closed);
    assert [SpoolRemaining] + [EndClose] == [SpoolRemaining, EndClose];
    LeadsOn(c, s, [BeginClose, TimerGone] + Failing(c, c.maxRetries + 2), spooling, [SpoolRemaining, EndClose], closed);
  }
}
