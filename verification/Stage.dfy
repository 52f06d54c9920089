/** Batching and sealing, ulpf/integrity/stage.py: event hashes accumulate, and each full,
    timed-out or final batch becomes one ledger line plus one index row per event. */
module Stage {
  import opened Core
  import opened Index
  import opened Ledger
  import Merkle

  datatype Leaf = Leaf(uid: string, hash: Digest)

  type Batch = seq<Leaf>

  function Uids(batch: Batch): (uids: seq<string>)
    ensures |uids| == |batch|
    ensures forall i :: 0 <= i < |batch| ==> uids[i] == batch[i].uid
  {
    seq(|batch|, i requires 0 <= i < |batch| => batch[i].uid)
  }

  function Hashes(batch: Batch): (hashes: seq<Bytes>)
    ensures |hashes| == |batch| && AllDigests(hashes)
    ensures forall i :: 0 <= i < |batch| ==> hashes[i] == batch[i].hash
  {
    seq(|batch|, i requires 0 <= i < |batch| => batch[i].hash)
  }

  /** The index after the first n batches of a history were added. */
  function IndexOf(history: seq<Batch>, n: nat): Rows
    requires n <= |history|
  {
    if n == 0 then map[]
    else AddRows(IndexOf(history, n - 1), n - 1, Uids(history[n - 1]), |history[n - 1]|)
  }

  /** A ledger line that seals a batch, and names its first and its last event. */
  ghost predicate Seals(h: Hash, line: Line, batch: Batch) {
    && FromJson(line).Some?
    && FromJson(line).value.batchRoot == Merkle.Root(h, Hashes(batch))
    && FromJson(line).value.leafCount == |batch|
    && (batch != [] ==>
         && FromJson(line).value.firstEventUid == Some(batch[0].uid)
         && FromJson(line).value.lastEventUid == Some(batch[|batch| - 1].uid))
  }

  /** The lines that were added to a file, if any, were sealed at `now`. */
  ghost predicate SealedAt(before: seq<Line>, lines: seq<Line>, now: int) {
    && before <= lines
    && forall k :: |before| <= k < |lines| ==> FromJson(lines[k]).Some? && FromJson(lines[k]).value.sealedAtNs == now
  }

  /** File and index are what sealing `history`, batch after batch, leaves behind. */
  ghost predicate Committed(h: Hash, verify: Verify, lines: seq<Line>, rows: Rows, history: seq<Batch>) {
    && Intact(h, Some(verify), lines)
    && |lines| == |history|
    && (forall k :: 0 <= k < |lines| ==> Seals(h, lines[k], history[k]))
    && rows == IndexOf(history, |history|)
  }

  ghost predicate SignerWorks(signer: Signer) {
    forall d :: |signer.sign(d)| == SIG_LEN && signer.verify(d, signer.sign(d))
  }

  lemma IndexOfPrefix(history: seq<Batch>, batch: Batch, n: nat)
    requires n <= |history|
    ensures IndexOf(history + [batch], n) == IndexOf(history, n)
  {
    if n > 0 {
      IndexOfPrefix(history, batch, n - 1);
    }
  }

  lemma SealExtendsRows(history: seq<Batch>, batch: Batch)
    ensures IndexOf(history + [batch], |history| + 1)
         == AddRows(IndexOf(history, |history|), |history|, Uids(batch), |batch|)
  {
    IndexOfPrefix(history, batch, |history|);
  }

  lemma NewEntrySeals(h: Hash, signer: Signer, seqNo: int, prev: Digest, batch: Batch, now: int)
    requires SignerWorks(signer)
    ensures Seals(h, Json(NewEntry(h, signer, seqNo, prev, Hashes(batch), Uids(batch), now)), batch)
  {
    RootLength(h, Hashes(batch));
  }

  lemma IntactPrev(h: Hash, verifier: Option<Verify>, lines: seq<Line>)
    requires Intact(h, verifier, lines)
    ensures |PrevRoot(lines, |lines|)| == HASH_LEN
  {
    if lines != [] {
      assert LineSound(h, verifier, lines, |lines| - 1);
    }
  }

  lemma SealKeepsIntact(h: Hash, signer: Signer, lines: seq<Line>, batch: Batch, now: int, entry: Entry)
    requires SignerWorks(signer) && Intact(h, Some(signer.verify), lines)
    requires entry == NewEntry(h, signer, |lines|, PrevRoot(lines, |lines|), Hashes(batch), Uids(batch), now)
    ensures Intact(h, Some(signer.verify), lines + [Json(entry)])
    ensures Seals(h, Json(entry), batch)
    ensures PrevRoot(lines + [Json(entry)], |lines| + 1) == entry.chainedRoot
  {
    IntactPrev(h, Some(signer.verify), lines);
    AppendKeepsIntact(h, signer, lines, Hashes(batch), Uids(batch), now);
    NewEntrySeals(h, signer, |lines|, PrevRoot(lines, |lines|), batch, now);
    assert (lines + [Json(entry)])[|lines|] == Json(entry);
  }

  /** Sealing one more batch extends the committed history by exactly that batch. */
  lemma SealExtends(h: Hash, verify: Verify, lines: seq<Line>, rows: Rows, history: seq<Batch>,
                    batch: Batch, line: Line)
    requires Committed(h, verify, lines, rows, history)
    requires Intact(h, Some(verify), lines + [line]) && Seals(h, line, batch)
    ensures Committed(h, verify, lines + [line], AddRows(rows, |lines|, Uids(batch), |batch|), history + [batch])
  {
    SealExtendsRows(history, batch);
  }

  lemma SealStep(h: Hash, signer: Signer, lines: seq<Line>, rows: Rows, history: seq<Batch>,
                 batch: Batch, now: int, entry: Entry)
    requires SignerWorks(signer) && Committed(h, signer.verify, lines, rows, history)
    requires entry == NewEntry(h, signer, |history|, PrevRoot(lines, |history|), Hashes(batch), Uids(batch), now)
    ensures Committed(h, signer.verify, lines + [Json(entry)],
                      AddRows(rows, |history|, Uids(batch), |batch|), history + [batch])
    ensures PrevRoot(lines + [Json(entry)], |history| + 1) == entry.chainedRoot
  {
    SealKeepsIntact(h, signer, lines, batch, now, entry);
    SealExtends(h, signer.verify, lines, rows, history, batch, Json(entry));
  }

  lemma HistoryGrows(history: seq<Batch>, base: nat, batch: Batch)
    requires base <= |history|
    ensures Concat((history + [batch])[base..]) == Concat(history[base..]) + batch
  {
    ConcatSnoc(history[base..], batch);
    assert (history + [batch])[base..] == history[base..] + [batch];
  }

  class IntegrityStage {
    const enabled: bool
    const batchSize: nat
    const timeout: real
    const ledger: IntegrityLedger
    const index: IntegrityIndex
    var pending: Batch
    var batchStartedAt: Option<real>
    var closed: bool

    /** Every batch ever sealed into this ledger; those from `base` on were sealed by this stage. */
    ghost var history: seq<Batch>
    ghost const base: nat
    /** Every event this stage has accepted, in order. */
    ghost var accepted: Batch

    ghost predicate Valid()
      reads this, ledger, ledger.file, index
    {
      && batchSize >= 1 && timeout >= 0.0
      && (pending != [] ==> enabled && batchStartedAt.Some?)
      && |pending| < batchSize
      && base <= |history|
      && (forall k :: base <= k < |history| ==> 1 <= |history[k]| <= batchSize)
      && Concat(history[base..]) + pending == accepted
      && (enabled ==> Backed(history))
    }

    /** Ledger and index hold exactly `history`, and the ledger is ready for the next batch. */
    ghost predicate Backed(history: seq<Batch>)
      reads ledger, ledger.file, index
    {
      && ledger.signer.Some? && SignerWorks(ledger.signer.value)
      && Committed(ledger.hash, ledger.signer.value.verify, ledger.file.lines, index.rows, history)
      && ledger.nextSeq == |history|
      && ledger.prevChainedRoot == PrevRoot(ledger.file.lines, |history|)
    }

    /** `enabled` is the setting and `ledger.signer` the configured key; a stage without a key is
        a pass-through and never touches `ledger` or `index`. */
    constructor (enabled: bool, batchSize: int, timeout: real, ledger: IntegrityLedger, index: IntegrityIndex,
                 ghost history: seq<Batch>)
      requires enabled && ledger.signer.Some? ==>
        && SignerWorks(ledger.signer.value)
        && Committed(ledger.hash, ledger.signer.value.verify, ledger.file.lines, index.rows, history)
        && (ledger.nextSeq, ledger.prevChainedRoot) == TailState(ledger.file.lines)
      ensures Valid()
      ensures this.ledger == ledger && this.index == index && this.history == history
      ensures this.enabled == (enabled && ledger.signer.Some?)
      ensures this.batchSize == if batchSize > 1 then batchSize else 1
      ensures this.timeout == if timeout > 0.0 then timeout else 0.0
      ensures pending == [] && accepted == [] && !closed && base == |history|
    {
      this.enabled := enabled && ledger.signer.Some?;
      this.batchSize := if batchSize > 1 then batchSize else 1;
      this.timeout := if timeout > 0.0 then timeout else 0.0;
      this.ledger := ledger;
      this.index := index;
      this.pending := [];
      this.batchStartedAt := None;
      this.closed := false;
      this.history := history;
      this.base := |history|;
      this.accepted := [];
      new;
      if this.enabled {
        IntactTail(ledger.hash, Some(ledger.signer.value.verify), ledger.file.lines);
      }
      assert history[base..] == [];
    }

    /** Accumulates one event hash; a disabled or closed stage lets the event pass. */
    method Process(uid: string, rawHash: Digest, monotonic: real, now: int)
      requires Valid()
      modifies this, ledger, ledger.file, index
      ensures Valid()
      ensures closed == old(closed)
      ensures !enabled || old(closed) ==>
        pending == old(pending) && history == old(history) && accepted == old(accepted)
      ensures enabled && !old(closed) ==>
        && accepted == old(accepted) + [Leaf(uid, rawHash)]
        && (if |old(pending)| + 1 == batchSize
            then pending == [] && history == old(history) + [old(pending) + [Leaf(uid, rawHash)]]
            else
              pending == old(pending) + [Leaf(uid, rawHash)] && history == old(history)
              && batchStartedAt == if old(pending) == [] then Some(monotonic) else old(batchStartedAt))
      ensures SealedAt(old(ledger.file.lines), ledger.file.lines, now)
      ensures !enabled ==> ledger.file.lines == old(ledger.file.lines) && index.rows == old(index.rows)
    {
      if !enabled || closed {
        return;
      }
      if pending == [] {
        batchStartedAt := Some(monotonic);
      }
      pending := pending + [Leaf(uid, rawHash)];
      accepted := accepted + [Leaf(uid, rawHash)];
      if |pending| >= batchSize {
        Seal(now);
      }
    }

    predicate TimedOut(monotonic: real)
      reads this
    {
      pending != [] && batchStartedAt.Some? && monotonic - batchStartedAt.value >= timeout
    }

    /** One wake-up of the background watcher, which exists only with a positive timeout: the open
        batch is sealed exactly when that time has passed since its first event. */
    method Watch(monotonic: real, now: int)
      requires Valid()
      modifies this, ledger, ledger.file, index
      ensures Valid()
      ensures accepted == old(accepted) && closed == old(closed)
      ensures old(pending) != [] ==> old(batchStartedAt).Some?
      ensures if timeout > 0.0 && !closed && old(pending) != [] && old(batchStartedAt).value + timeout <= monotonic
        then pending == [] && history == old(history) + [old(pending)]
        else pending == old(pending) && history == old(history) && batchStartedAt == old(batchStartedAt)
      ensures SealedAt(old(ledger.file.lines), ledger.file.lines, now)
    {
      if timeout > 0.0 && !closed && TimedOut(monotonic) {
        Seal(now);
      }
    }

    /** Shutdown: seals what is left and stops accepting. */
    method Flush(now: int)
      requires Valid()
      modifies this, ledger, ledger.file, index
      ensures Valid()
      ensures closed && pending == [] && accepted == old(accepted)
      ensures !enabled ==> ledger.file.lines == old(ledger.file.lines) && index.rows == old(index.rows)
      ensures SealedAt(old(ledger.file.lines), ledger.file.lines, now)
      ensures history == old(history) + (if old(pending) == [] then [] else [old(pending)])
      ensures Concat(history[base..]) == accepted
    {
      closed := true;
      if enabled {
        Seal(now);
      }
      assert Concat(history[base..]) + [] == Concat(history[base..]);
    }

    /** Folds the pending batch into a ledger line and index rows. */
    method Seal(now: int)
      requires enabled && Backed(history)
      requires batchSize >= 1 && timeout >= 0.0
      requires |pending| <= batchSize && base <= |history|
      requires forall k :: base <= k < |history| ==> 1 <= |history[k]| <= batchSize
      requires Concat(history[base..]) + pending == accepted
      modifies this, ledger, ledger.file, index
      ensures Valid()
      ensures pending == [] && closed == old(closed) && accepted == old(accepted)
      ensures SealedAt(old(ledger.file.lines), ledger.file.lines, now)
      ensures history == old(history) + (if old(pending) == [] then [] else [old(pending)])
    {
      hide Backed, Concat;
      if pending == [] {
        return;
      }
      var batch := pending;
      pending := [];
      batchStartedAt := None;
      Commit(batch, now, history);
      HistoryGrows(history, base, batch);
      history := history + [batch];
      assert accepted + [] == accepted;
    }

    method Commit(batch: Batch, now: int, ghost before: seq<Batch>)
      requires Backed(before)
      modifies ledger, ledger.file, index
      ensures Backed(before + [batch])
      ensures SealedAt(old(ledger.file.lines), ledger.file.lines, now)
    {
      ghost var lines, rows := ledger.file.lines, index.rows;
      var sealed := ledger.AppendBatch(Hashes(batch), Uids(batch), now);
      index.AddBatch(sealed.value.seqNo, Uids(batch));
      SealStep(ledger.hash, ledger.signer.value, lines, rows, before, batch, now, sealed.value);
    }
  }

  // ----- the timeout, over a whole batch -----

  /** Events arrive at the given times, too few to fill a batch, and the watcher wakes up once: the batch
      is sealed whole if and only if the timeout has passed since the first of them, and is otherwise
      left as it is, its age still counted from there. */
  method ProcessThenWatch(stage: IntegrityStage, batch: Batch, times: seq<real>, monotonic: real, now: int)
    requires stage.Valid() && stage.enabled && !stage.closed && stage.pending == [] && stage.timeout > 0.0
    requires 0 < |batch| == |times| < stage.batchSize
    modifies stage, stage.ledger, stage.ledger.file, stage.index
    ensures stage.Valid()
    ensures times[0] + stage.timeout <= monotonic ==>
      stage.pending == [] && stage.history == old(stage.history) + [batch]
    ensures monotonic < times[0] + stage.timeout ==>
      stage.pending == batch && stage.history == old(stage.history) && stage.batchStartedAt == Some(times[0])
  {
    hide IntegrityStage.Valid, SealedAt;
    for e := 0 to |batch|
      invariant stage.Valid() && !stage.closed && stage.history == old(stage.history)
      invariant stage.pending == batch[..e]
      invariant e > 0 ==> stage.batchStartedAt == Some(times[0])
    {
      stage.Process(batch[e].uid, batch[e].hash, times[e], now);
      assert batch[..e + 1] == batch[..e] + [batch[e]];
    }
    assert batch[..|batch|] == batch;
    stage.Watch(monotonic, now);
  }
}
