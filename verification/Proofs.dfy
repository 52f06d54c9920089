/** Rebuilding and checking inclusion proofs, ulpf/integrity/proofs.py, and the end-to-end
    theorems: what was sealed verifies, and what verifies was sealed. */
module Proofs {
  import opened Core
  import opened Index
  import opened Ledger
  import opened Stage
  import Merkle

  const ZERO_LEAF: Digest := Zeros(HASH_LEN)

  /** A bronze record: the stored bytes and the hash recorded at ingest. */
  datatype Record = Record(raw: Bytes, rawHash: Bytes)

  type Records = map<string, Record>

  datatype EventProof = EventProof(
    uid: string,
    found: bool,
    hashOk: bool,
    proofOk: bool,
    signatureOk: bool,
    location: Option<Location>,
    batchRoot: Option<Bytes>,
    recomputed: Option<Bytes>,
    path: seq<Merkle.Step>)
  {
    predicate AllOk() {
      found && hashOk && proofOk && signatureOk
    }
  }

  datatype BuildError = MalformedLedger

  type Entries = map<int, Entry>

  /** Ledger entries keyed by their sequence number; a later entry wins. */
  function EntriesBySeq(lines: seq<Line>): Option<Entries> {
    if lines == [] then Some(map[])
    else
      var front := EntriesBySeq(lines[..|lines| - 1]);
      var last := FromJson(lines[|lines| - 1]);
      if front.None? || last.None? then None else Some(front.value[last.value.seqNo := last.value])
  }

  /** The recorded hashes of the listed events; a missing event counts as the zero leaf. */
  function LeavesOf(records: Records, uids: seq<string>): (leaves: seq<Bytes>)
    ensures |leaves| == |uids|
  {
    seq(|uids|, i requires 0 <= i < |uids| => if uids[i] in records then records[uids[i]].rawHash else ZERO_LEAF)
  }

  function NotFound(uid: string, hashOk: bool, recomputed: Option<Bytes>): EventProof {
    EventProof(uid, false, hashOk, false, false, None, None, recomputed, [])
  }

  /** The verdict on a stored event that has a ledger entry. */
  function Inspect(h: Hash, verifier: Option<Verify>, uid: string, record: Record, location: Location,
                   entry: Entry, leaves: seq<Bytes>): Result<EventProof, Merkle.MerkleError>
  {
    if leaves == [] then Err(Merkle.EmptyTree)
    else if !(0 <= location.leafIndex < |leaves|) then Err(Merkle.IndexOutOfRange)
    else
      Ok(EventProof(
        uid, true, h(record.raw) == record.rawHash,
        Merkle.Fold(h, h(record.raw), Merkle.Path(h, leaves, location.leafIndex)) == entry.batchRoot,
        verifier.Some? && verifier.value(entry.chainedRoot, entry.signature),
        Some(location), Some(entry.batchRoot), Some(h(record.raw)), Merkle.Path(h, leaves, location.leafIndex)))
  }

  /** The verdict on one event, given the leaves of its batch. */
  function Verdict(h: Hash, verifier: Option<Verify>, records: Records, rows: Rows, entries: Entries,
                   leaves: seq<Bytes>, uid: string): Result<EventProof, Merkle.MerkleError>
  {
    if uid !in records then Ok(NotFound(uid, false, None))
    else if uid !in rows || rows[uid].ledgerSeq !in entries
    then Ok(NotFound(uid, h(records[uid].raw) == records[uid].rawHash, Some(h(records[uid].raw))))
    else Inspect(h, verifier, uid, records[uid], rows[uid], entries[rows[uid].ledgerSeq], leaves)
  }

  /** `leaves` is what may be read back for a batch; rows with equal leaf indices come in any order. */
  ghost predicate AreBatchLeaves(rows: Rows, siblings: Records, ledgerSeq: int, leaves: seq<Bytes>) {
    exists uids :: IsListing(rows, ledgerSeq, uids) && leaves == LeavesOf(siblings, uids)
  }

  /** `r` is the verdict on the event over the leaves of its batch. */
  ghost predicate IsAnswer(h: Hash, verifier: Option<Verify>, records: Records, siblings: Records, rows: Rows,
                           entries: Entries, uid: string, r: Result<EventProof, Merkle.MerkleError>)
  {
    exists leaves ::
      && r == Verdict(h, verifier, records, rows, entries, leaves, uid)
      && (uid in rows && rows[uid].ledgerSeq in entries && uid in records ==>
            AreBatchLeaves(rows, siblings, rows[uid].ledgerSeq, leaves))
  }

  // ----- what an answer says, whatever is in the file -----

  /** Line i is the last one with this number, the one an answer is about. */
  ghost predicate IsLineOf(lines: seq<Line>, seqNo: int, i: int) {
    && 0 <= i < |lines| && FromJson(lines[i]).Some? && FromJson(lines[i]).value.seqNo == seqNo
    && forall j :: i < j < |lines| && FromJson(lines[j]).Some? ==> FromJson(lines[j]).value.seqNo != seqNo
  }

  lemma {:induction false} EntriesAreLines(lines: seq<Line>, seqNo: int)
    requires EntriesBySeq(lines).Some?
    ensures forall j :: 0 <= j < |lines| ==> FromJson(lines[j]).Some?
    ensures seqNo in EntriesBySeq(lines).value <==> exists i :: IsLineOf(lines, seqNo, i)
    ensures forall i :: IsLineOf(lines, seqNo, i) ==> EntriesBySeq(lines).value[seqNo] == FromJson(lines[i]).value
  {
    if lines != [] {
      var front, n := lines[..|lines| - 1], |lines| - 1;
      EntriesAreLines(front, seqNo);
      if FromJson(lines[n]).value.seqNo == seqNo {
        assert IsLineOf(lines, seqNo, n);
      } else {
        forall i: int
          ensures IsLineOf(lines, seqNo, i) <==> IsLineOf(front, seqNo, i)
        {
          assert forall j :: 0 <= j < n ==> front[j] == lines[j];
        }
      }
    }
  }

  /** The line of this number, as an auditor reads it: the verifier accepts the signature of its root. */
  ghost predicate LineAccepted(verifier: Option<Verify>, lines: seq<Line>, seqNo: int) {
    exists i :: IsLineOf(lines, seqNo, i) && verifier.Some?
      && verifier.value(FromJson(lines[i]).value.chainedRoot, FromJson(lines[i]).value.signature)
  }

  lemma AnswerFields(h: Hash, verifier: Option<Verify>, records: Records, siblings: Records, rows: Rows,
                     entries: Entries, uid: string, p: EventProof)
    requires IsAnswer(h, verifier, records, siblings, rows, entries, uid, Ok(p))
    ensures p.found <==> uid in records && uid in rows && rows[uid].ledgerSeq in entries
    ensures p.AllOk() <==> p.found && h(records[uid].raw) == records[uid].rawHash && p.proofOk && p.signatureOk
    ensures p.signatureOk ==> p.found
    ensures p.found ==>
      var entry := entries[rows[uid].ledgerSeq];
      && p.location == Some(rows[uid]) && p.batchRoot == Some(entry.batchRoot)
      && (p.proofOk <==> Merkle.Fold(h, h(records[uid].raw), p.path) == entry.batchRoot)
      && (p.signatureOk <==> verifier.Some? && verifier.value(entry.chainedRoot, entry.signature))
  {
    hide AreBatchLeaves, Merkle.Fold, Merkle.Path;
  }

  /** With any ledger file that parses, intact or not, and any records, index and siblings: what an
      answer says about the signature is what the verifier says about the line that its event points to.
      Without a verifier, or when it rejects that line, the event does not pass. */
  lemma AnswerNeedsSignature(h: Hash, verifier: Option<Verify>, records: Records, siblings: Records, rows: Rows,
                             lines: seq<Line>, uid: string, p: EventProof)
    requires EntriesBySeq(lines).Some?
    requires IsAnswer(h, verifier, records, siblings, rows, EntriesBySeq(lines).value, uid, Ok(p))
    ensures p.found ==> p.location == Some(rows[uid]) && exists i :: IsLineOf(lines, rows[uid].ledgerSeq, i)
    ensures forall i :: p.found && IsLineOf(lines, rows[uid].ledgerSeq, i) ==>
      var entry := FromJson(lines[i]).value;
      && p.batchRoot == Some(entry.batchRoot)
      && (p.proofOk <==> Merkle.Fold(h, h(records[uid].raw), p.path) == entry.batchRoot)
      && (p.signatureOk <==> verifier.Some? && verifier.value(entry.chainedRoot, entry.signature))
    ensures p.AllOk() <==>
      && p.found && h(records[uid].raw) == records[uid].rawHash && p.proofOk
      && LineAccepted(verifier, lines, rows[uid].ledgerSeq)
    ensures verifier.None? ==> !p.signatureOk && !p.AllOk()
  {
    hide EntriesBySeq, IsLineOf, IsAnswer, EventProof.AllOk, Merkle.Fold, FromJson;
    AnswerFields(h, verifier, records, siblings, rows, EntriesBySeq(lines).value, uid, p);
    if uid in rows {
      EntriesAreLines(lines, rows[uid].ledgerSeq);
    }
    if p.found {
      var i :| IsLineOf(lines, rows[uid].ledgerSeq, i);
      LineInRange(lines, rows[uid].ledgerSeq, i);
    }
  }

  lemma LineInRange(lines: seq<Line>, seqNo: int, i: int)
    requires IsLineOf(lines, seqNo, i)
    ensures 0 <= i < |lines| && FromJson(lines[i]).Some?
  {}

  class BronzeStore {
    var records: Records

    constructor (records: Records)
      ensures this.records == records
    {
      this.records := records;
    }
  }

  /** An absent index or ledger behaves as an empty one. */
  class ProofBuilder {
    const store: BronzeStore
    const index: IntegrityIndex
    const ledger: IntegrityLedger
    /** Events a caller has already scanned; siblings are then taken from here. */
    const eventCache: Option<Records>
    var entries: Entries
    var leafCache: map<int, seq<Bytes>>

    function Siblings(): Records
      reads store
    {
      if eventCache.Some? then eventCache.value else store.records
    }

    /** `leaves` is what `BatchLeaves` may answer for a batch. */
    ghost predicate IsBatchLeaves(ledgerSeq: int, leaves: seq<Bytes>)
      reads store, index
    {
      AreBatchLeaves(index.rows, Siblings(), ledgerSeq, leaves)
    }

    /** Every cached leaf list is still what the store and the index say. */
    ghost predicate Valid()
      reads this, store, index
    {
      forall s :: s in leafCache ==> IsBatchLeaves(s, leafCache[s])
    }

    constructor (store: BronzeStore, index: IntegrityIndex, ledger: IntegrityLedger, eventCache: Option<Records>)
      requires EntriesBySeq(ledger.file.lines).Some?
      ensures Valid()
      ensures this.store == store && this.index == index && this.ledger == ledger && this.eventCache == eventCache
      ensures entries == EntriesBySeq(ledger.file.lines).value
    {
      this.store := store;
      this.index := index;
      this.ledger := ledger;
      this.eventCache := eventCache;
      this.entries := EntriesBySeq(ledger.file.lines).value;
      this.leafCache := map[];
    }

    /** Building a proof builder fails on a ledger with a malformed line. */
    static method Open(store: BronzeStore, index: IntegrityIndex, ledger: IntegrityLedger, eventCache: Option<Records>)
      returns (r: Result<ProofBuilder, BuildError>)
      ensures EntriesBySeq(ledger.file.lines).None? ==> r == Err(MalformedLedger)
      ensures EntriesBySeq(ledger.file.lines).Some? ==>
        && r.Ok? && fresh(r.value) && r.value.Valid()
        && r.value.store == store && r.value.index == index && r.value.ledger == ledger && r.value.eventCache == eventCache
        && r.value.entries == EntriesBySeq(ledger.file.lines).value
    {
      if EntriesBySeq(ledger.file.lines).None? {
        return Err(MalformedLedger);
      }
      var builder := new ProofBuilder(store, index, ledger, eventCache);
      return Ok(builder);
    }

    method BatchLeaves(ledgerSeq: int) returns (leaves: seq<Bytes>)
      requires Valid()
      modifies this`leafCache
      ensures Valid()
      ensures IsBatchLeaves(ledgerSeq, leaves)
      ensures exists uids ::
        && IsListing(index.rows, ledgerSeq, uids) && |leaves| == |uids|
        && forall i :: 0 <= i < |uids| ==>
             leaves[i] == if uids[i] in Siblings() then Siblings()[uids[i]].rawHash else Zeros(32)
    {
      if ledgerSeq !in leafCache {
        var uids := index.EventUidsForBatch(ledgerSeq);
        var fetched: seq<Bytes> := [];
        for i := 0 to |uids|
          invariant fetched == LeavesOf(Siblings(), uids[..i])
        {
          var sibling := Siblings();
          fetched := fetched + [if uids[i] in sibling then sibling[uids[i]].rawHash else ZERO_LEAF];
        }
        assert uids[..|uids|] == uids;
        leafCache := leafCache[ledgerSeq := fetched];
      }
      return leafCache[ledgerSeq];
    }

    /** Verifies one event end to end. */
    method ForEvent(uid: string) returns (r: Result<EventProof, Merkle.MerkleError>)
      requires Valid()
      modifies this`leafCache
      ensures Valid()
      ensures IsAnswer(ledger.hash, ledger.verifier, store.records, Siblings(), index.rows, entries, uid, r)
      ensures r.Ok? ==>
        var p := r.value;
        && p.uid == uid
        && (p.found <==> uid in store.records && uid in index.rows && index.rows[uid].ledgerSeq in entries)
        && (uid in store.records ==>
             var record := store.records[uid];
             p.recomputed == Some(ledger.hash(record.raw)) && p.hashOk == (ledger.hash(record.raw) == record.rawHash))
        && (uid !in store.records ==> p.recomputed == None && !p.hashOk)
        && (!p.found ==> !p.proofOk && !p.signatureOk && p.location == None && p.batchRoot == None && p.path == [])
        && (p.found ==>
             var entry := entries[index.rows[uid].ledgerSeq];
             && p.location == Some(index.rows[uid]) && p.batchRoot == Some(entry.batchRoot)
             && p.proofOk == (Merkle.Fold(ledger.hash, ledger.hash(store.records[uid].raw), p.path) == entry.batchRoot)
             && p.signatureOk == (ledger.verifier.Some? && ledger.verifier.value(entry.chainedRoot, entry.signature)))
      ensures r.Err? ==> uid in store.records && uid in index.rows && index.rows[uid].ledgerSeq in entries
    {
      ghost var leaves: seq<Bytes> := [];
      if uid !in store.records {
        r := Ok(NotFound(uid, false, None));
      } else {
        var record := store.records[uid];
        var recomputed := ledger.hash(record.raw);
        var hashOk := recomputed == record.rawHash;
        var location := index.Lookup(uid);
        if location.None? || location.value.ledgerSeq !in entries {
          r := Ok(NotFound(uid, hashOk, Some(recomputed)));
        } else {
          var batchLeaves := BatchLeaves(location.value.ledgerSeq);
          leaves := batchLeaves;
          r := Examine(uid, record, recomputed, hashOk, location.value, entries[location.value.ledgerSeq], batchLeaves);
        }
      }
      assert r == Verdict(ledger.hash, ledger.verifier, store.records, index.rows, entries, leaves, uid);
    }

    method Examine(uid: string, record: Record, recomputed: Bytes, hashOk: bool, location: Location,
                   entry: Entry, leaves: seq<Bytes>)
      returns (r: Result<EventProof, Merkle.MerkleError>)
      requires recomputed == ledger.hash(record.raw) && hashOk == (recomputed == record.rawHash)
      ensures r == Inspect(ledger.hash, ledger.verifier, uid, record, location, entry, leaves)
    {
      var path := Merkle.MerkleProof(ledger.hash, leaves, location.leafIndex);
      if path.Err? {
        return Err(path.error);
      }
      Merkle.PathVerifies(ledger.hash, leaves, location.leafIndex);
      var proofOk := Merkle.VerifyProof(ledger.hash, recomputed, path.value, entry.batchRoot);
      var signatureOk := ledger.verifier.Some? && ledger.verifier.value(entry.chainedRoot, entry.signature);
      return Ok(EventProof(uid, true, hashOk, proofOk.value, signatureOk, Some(location),
                           Some(entry.batchRoot), Some(recomputed), path.value));
    }
  }
}
