/** The integrity components together: ledger, index, stage and proof builder. */
module EndToEnd {
  import opened Core
  import opened Index
  import opened Ledger
  import opened Stage
  import opened Proofs
  import Merkle

  // ----- distinct event uids -----

  /** No two sealed events share a uid. */
  ghost predicate DistinctUids(history: seq<Batch>) {
    forall k, i, l, j ::
      (0 <= k < |history| && 0 <= i < |history[k]| && 0 <= l < |history| && 0 <= j < |history[l]|
       && history[k][i].uid == history[l][j].uid) ==> k == l && i == j
  }

  lemma {:induction false} ConcatAt(history: seq<Batch>, k: nat, i: nat)
    requires k < |history| && i < |history[k]|
    ensures |Concat(history[..k])| + |history[k]| <= |Concat(history)|
    ensures Concat(history)[|Concat(history[..k])| + i] == history[k][i]
  {
    if k == 0 {
      assert history[..0] == [];
    } else {
      var rest := history[1..];
      ConcatAt(rest, k - 1, i);
      assert rest[..k - 1] == history[..k][1..];
    }
  }

  lemma {:induction false} ConcatMonotone(history: seq<Batch>, k: nat, l: nat)
    requires k < l <= |history|
    ensures |Concat(history[..k])| + |history[k]| <= |Concat(history[..l])|
    decreases l
  {
    ConcatSnoc(history[..l - 1], history[l - 1]);
    assert history[..l] == history[..l - 1] + [history[l - 1]];
    if k < l - 1 {
      ConcatMonotone(history, k, l - 1);
    }
  }

  /** Distinct uids in the accepted stream give distinct uids in the sealed history. */
  lemma StreamDistinct(history: seq<Batch>)
    requires Distinct(Uids(Concat(history)))
    ensures DistinctUids(history)
  {
    forall k, i, l, j | 0 <= k < |history| && 0 <= i < |history[k]| && 0 <= l < |history| && 0 <= j < |history[l]|
      && history[k][i].uid == history[l][j].uid
      ensures k == l && i == j
    {
      ConcatAt(history, k, i);
      ConcatAt(history, l, j);
      var all := Uids(Concat(history));
      var p, q := |Concat(history[..k])| + i, |Concat(history[..l])| + j;
      assert all[p] == history[k][i].uid == history[l][j].uid == all[q];
      if k < l {
        ConcatMonotone(history, k, l);
      } else if l < k {
        ConcatMonotone(history, l, k);
      }
    }
  }

  ghost predicate IsUidOf(batch: Batch, uid: string) {
    exists i :: 0 <= i < |batch| && batch[i].uid == uid
  }

  lemma BatchUidsDistinct(history: seq<Batch>, k: nat)
    requires k < |history| && DistinctUids(history)
    ensures Distinct(Uids(history[k]))
  {}

  /** Every row of the index points into the history, at its own uid. */
  lemma {:induction false} IndexRows(history: seq<Batch>, n: nat, uid: string)
    requires n <= |history| && DistinctUids(history)
    requires uid in IndexOf(history, n)
    ensures 0 <= IndexOf(history, n)[uid].ledgerSeq < n
    ensures IsUidOf(history[IndexOf(history, n)[uid].ledgerSeq], uid)
  {
    var last := Uids(history[n - 1]);
    BatchUidsDistinct(history, n - 1);
    AddRowsPlaces(IndexOf(history, n - 1), n - 1, last, |last|);
    assert last[..|last|] == last;
    if uid in last {
      var i :| 0 <= i < |last| && last[i] == uid;
      assert history[n - 1][i].uid == uid;
    } else {
      IndexRows(history, n - 1, uid);
    }
  }

  /** After n batches, the uids of batch k sit at their leaf indices. */
  lemma {:induction false} IndexPlacesUid(history: seq<Batch>, n: nat, k: nat, i: nat)
    requires k < n <= |history| && DistinctUids(history) && i < |history[k]|
    ensures history[k][i].uid in IndexOf(history, n)
    ensures IndexOf(history, n)[history[k][i].uid] == Location(k, i)
    decreases n
  {
    var last := Uids(history[n - 1]);
    BatchUidsDistinct(history, n - 1);
    AddRowsPlaces(IndexOf(history, n - 1), n - 1, last, |last|);
    assert last[..|last|] == last;
    if k < n - 1 {
      IndexPlacesUid(history, n - 1, k, i);
      assert history[k][i].uid !in last;
    } else {
      assert last[i] == history[k][i].uid;
    }
  }

  /** The sealed history owns the index: batch k occupies exactly its own rows. */
  lemma IndexPlaces(history: seq<Batch>, n: nat, k: nat)
    requires k < n <= |history| && DistinctUids(history)
    ensures BatchAt(IndexOf(history, n), k, Uids(history[k]))
  {
    var rows := IndexOf(history, n);
    var uids := Uids(history[k]);
    forall i | 0 <= i < |uids|
      ensures uids[i] in rows && rows[uids[i]] == Location(k, i)
    {
      IndexPlacesUid(history, n, k, i);
    }
    forall uid | uid in rows && rows[uid].ledgerSeq == k
      ensures uid in uids
    {
      IndexRows(history, n, uid);
      var i :| 0 <= i < |history[k]| && history[k][i].uid == uid;
      assert uids[i] == uid;
    }
  }

  // ----- ledger entries by number -----

  lemma {:induction false} EntriesOfIntact(h: Hash, verifier: Option<Verify>, lines: seq<Line>, n: nat)
    requires n <= |lines| && Intact(h, verifier, lines)
    ensures EntriesBySeq(lines[..n]).Some?
    ensures forall k :: k in EntriesBySeq(lines[..n]).value <==> 0 <= k < n
    ensures forall k :: 0 <= k < n ==>
      FromJson(lines[k]).Some? && EntriesBySeq(lines[..n]).value[k] == FromJson(lines[k]).value
  {
    if n > 0 {
      assert lines[..n][..n - 1] == lines[..n - 1];
      EntriesOfIntact(h, verifier, lines, n - 1);
      assert LineSound(h, verifier, lines, n - 1);
    }
  }

  // ----- what the builder answers for a sealed event -----

  /** With ledger and index intact, the verdict on event (k, i) compares the path built from the
      sibling hashes -- stored ones, or those of a caller's event cache -- with the sealed root. */
  lemma VerdictOnSealed(h: Hash, verify: Verify, lines: seq<Line>, rows: Rows, history: seq<Batch>,
                        records: Records, siblings: Records, k: nat, i: nat, uids: seq<string>)
    requires Committed(h, verify, lines, rows, history) && DistinctUids(history)
    requires k < |history| && i < |history[k]| && history[k][i].uid in records
    requires IsListing(rows, k, uids)
    ensures uids == Uids(history[k])
    ensures EntriesBySeq(lines).Some?
    ensures var leaves := LeavesOf(siblings, uids);
      var record := records[history[k][i].uid];
      var r := Verdict(h, Some(verify), records, rows, EntriesBySeq(lines).value, leaves, history[k][i].uid);
      && r.Ok? && r.value.found && r.value.signatureOk
      && r.value.hashOk == (h(record.raw) == record.rawHash)
      && r.value.path == Merkle.Path(h, leaves, i)
      && r.value.proofOk == (Merkle.Fold(h, h(record.raw), Merkle.Path(h, leaves, i)) == Merkle.Root(h, Hashes(history[k])))
  {
    IndexPlaces(history, |history|, k);
    ListingIsBatch(rows, k, Uids(history[k]), uids);
    EntriesOfIntact(h, Some(verify), lines, |lines|);
    assert lines[..|lines|] == lines;
    assert rows[Uids(history[k])[i]] == Location(k, i);
    assert LineSound(h, Some(verify), lines, k);
    assert Seals(h, lines[k], history[k]);
  }

  /** The stored hashes of a batch are the sealed ones. */
  ghost predicate HashesStored(records: Records, batch: Batch) {
    forall j :: 0 <= j < |batch| ==> batch[j].uid in records && records[batch[j].uid].rawHash == batch[j].hash
  }

  lemma StoredLeaves(records: Records, batch: Batch)
    requires HashesStored(records, batch)
    ensures LeavesOf(records, Uids(batch)) == Hashes(batch)
  {}

  /** Completeness: every sealed event of an untouched store verifies. */
  lemma SealedEventVerifies(h: Hash, verify: Verify, lines: seq<Line>, rows: Rows, history: seq<Batch>,
                            records: Records, siblings: Records, k: nat, i: nat, uids: seq<string>)
    requires Committed(h, verify, lines, rows, history) && DistinctUids(history)
    requires k < |history| && i < |history[k]| && IsListing(rows, k, uids)
    requires HashesStored(siblings, history[k])
    requires history[k][i].uid in records && records[history[k][i].uid].rawHash == history[k][i].hash
    requires h(records[history[k][i].uid].raw) == history[k][i].hash
    ensures EntriesBySeq(lines).Some?
    ensures var r := Verdict(h, Some(verify), records, rows, EntriesBySeq(lines).value,
                             LeavesOf(siblings, uids), history[k][i].uid);
      r.Ok? && r.value.AllOk()
  {
    VerdictOnSealed(h, verify, lines, rows, history, records, siblings, k, i, uids);
    StoredLeaves(siblings, history[k]);
    Merkle.PathVerifies(h, Hashes(history[k]), i);
  }

  /** `for_event` answered Ok(p) for event (k, i), and every check in p passed. */
  ghost predicate Verified(h: Hash, verify: Verify, lines: seq<Line>, rows: Rows, history: seq<Batch>,
                           records: Records, siblings: Records, k: nat, i: nat, uids: seq<string>, p: EventProof) {
    && k < |history| && i < |history[k]| && history[k][i].uid in records
    && EntriesBySeq(lines).Some?
    && Verdict(h, Some(verify), records, rows, EntriesBySeq(lines).value,
               LeavesOf(siblings, uids), history[k][i].uid) == Ok(p)
    && p.AllOk()
  }

  /** Soundness: whatever was done to the bronze records and whatever siblings a cache supplies, an
      event that verifies has bytes that hash to the leaf sealed for it, and its path is the sealed
      one -- or a collision is on the table. */
  lemma VerifiedEventWasSealed(h: Hash, verify: Verify, lines: seq<Line>, rows: Rows, history: seq<Batch>,
                               records: Records, siblings: Records, k: nat, i: nat, uids: seq<string>, p: EventProof)
    requires Committed(h, verify, lines, rows, history) && DistinctUids(history) && IsListing(rows, k, uids)
    requires Verified(h, verify, lines, rows, history, records, siblings, k, i, uids, p)
    ensures var recomputed := h(records[history[k][i].uid].raw);
      || (recomputed == history[k][i].hash && p.path == Merkle.Path(h, Hashes(history[k]), i))
      || Collision(h, Merkle.FoldHashed(h, recomputed, p.path) + Merkle.Hashed(h, Hashes(history[k])))
  {
    VerdictOnSealed(h, verify, lines, rows, history, records, siblings, k, i, uids);
    var leaves := LeavesOf(siblings, uids);
    Merkle.PathShape(h, leaves, i);
    Merkle.PathBinds(h, Hashes(history[k]), i, h(records[history[k][i].uid].raw), p.path);
  }

  // ----- exactly when an event verifies -----

  /** Neighbour by neighbour, two lists of one length join to the same strings. */
  ghost predicate SamePairs(a: seq<Bytes>, b: seq<Bytes>) {
    && |a| == |b|
    && (|a| == 1 ==> a == b)
    && forall j :: 0 <= j < (|a| + 1) / 2 && |a| > 1 ==> Merkle.PairAt(a, j) == Merkle.PairAt(b, j)
  }

  lemma SamePairsSameRoot(h: Hash, a: seq<Bytes>, b: seq<Bytes>)
    requires SamePairs(a, b)
    ensures Merkle.Root(h, a) == Merkle.Root(h, b)
  {
    if |a| > 1 {
      forall j | 0 <= j < (|a| + 1) / 2
        ensures Merkle.Up(h, a)[j] == Merkle.Up(h, b)[j]
      {
        Merkle.UpAt(h, a, j);
        Merkle.UpAt(h, b, j);
        assert Merkle.PairAt(a, j) == Merkle.PairAt(b, j);
      }
      assert Merkle.Up(h, a) == Merkle.Up(h, b);
    }
  }

  /** Roots of equal-length lists of strings of any length agree exactly when all pairs do. */
  lemma SameRootSamePairs(h: Hash, a: seq<Bytes>, b: seq<Bytes>)
    requires |a| == |b| && Merkle.Root(h, a) == Merkle.Root(h, b)
    ensures SamePairs(a, b) || Collision(h, Merkle.Hashed(h, a) + Merkle.Hashed(h, b))
  {
    var all := Merkle.Hashed(h, a) + Merkle.Hashed(h, b);
    if |a| > 1 && !Collision(h, all) {
      var ua, ub := Merkle.Up(h, a), Merkle.Up(h, b);
      Merkle.RootBinds(h, ua, ub);
      if Collision(h, Merkle.Hashed(h, ua) + Merkle.Hashed(h, ub)) {
        CollisionGrows(h, Merkle.Hashed(h, ua) + Merkle.Hashed(h, ub), all);
      }
      forall j | 0 <= j < (|a| + 1) / 2
        ensures Merkle.PairAt(a, j) == Merkle.PairAt(b, j)
      {
        Merkle.UpAt(h, a, j);
        Merkle.UpAt(h, b, j);
        assert Merkle.PairAt(a, j) in all && Merkle.PairAt(b, j) in all;
      }
    } else if |a| == 1 {
      assert a == [a[0]] && b == [b[0]];
    }
  }

  lemma SamePairsSameLeaves(a: seq<Bytes>, b: seq<Bytes>)
    requires SamePairs(a, b) && AllDigests(a) && AllDigests(b)
    ensures a == b
  {
    if |a| > 1 {
      forall i | 0 <= i < |a|
        ensures a[i] == b[i]
      {
        var j := i / 2;
        assert Merkle.PairAt(a, j) == Merkle.PairAt(b, j);
        Merkle.SplitConcat(a[2 * j], a[Merkle.RightChild(|a|, j)], b[2 * j], b[Merkle.RightChild(|a|, j)]);
      }
    }
  }

  /** Exactly when, for any stored hashes: an event verifies if and only if its bytes hash to the
      recorded hash and the recorded hashes of its batch pair up to the same strings as the sealed
      ones. When they all have digest length, that is: exactly the sealed ones. */
  lemma VerifiedExactlyWhenIntact(h: Hash, verify: Verify, lines: seq<Line>, rows: Rows, history: seq<Batch>,
                                  records: Records, k: nat, i: nat, uids: seq<string>, p: EventProof)
    requires Committed(h, verify, lines, rows, history) && DistinctUids(history)
    requires k < |history| && i < |history[k]| && history[k][i].uid in records
    requires IsListing(rows, k, uids) && EntriesBySeq(lines).Some?
    requires Verdict(h, Some(verify), records, rows, EntriesBySeq(lines).value,
                     LeavesOf(records, uids), history[k][i].uid) == Ok(p)
    ensures var leaves, record := LeavesOf(records, uids), records[history[k][i].uid];
      && (h(record.raw) == record.rawHash && SamePairs(leaves, Hashes(history[k])) ==> p.AllOk())
      && (p.AllOk() ==>
        || (h(record.raw) == record.rawHash && SamePairs(leaves, Hashes(history[k])))
        || Collision(h, Merkle.Hashed(h, leaves) + Merkle.Hashed(h, Hashes(history[k]))))
      && (AllDigests(leaves) ==> (SamePairs(leaves, Hashes(history[k])) <==> leaves == Hashes(history[k])))
  {
    VerdictOnSealed(h, verify, lines, rows, history, records, records, k, i, uids);
    var leaves, sealed := LeavesOf(records, uids), Hashes(history[k]);
    Merkle.PathVerifies(h, leaves, i);
    assert leaves[i] == records[uids[i]].rawHash;
    if SamePairs(leaves, sealed) {
      SamePairsSameRoot(h, leaves, sealed);
      if AllDigests(leaves) {
        SamePairsSameLeaves(leaves, sealed);
      }
    }
    if p.AllOk() {
      SameRootSamePairs(h, leaves, sealed);
    }
  }

  // ----- with a ledger file from elsewhere -----

  lemma AcceptedMatches(h: Hash, verify: Verify, lines: seq<Line>, rows: Rows, history: seq<Batch>, other: seq<Line>)
    requires Committed(h, verify, lines, rows, history)
    requires forall k :: 0 <= k < |lines| ==> FromJson(lines[k]).Some?
    requires Intact(h, Some(verify), other)
    requires SignedOnly(h, verify, RecordedRoots(lines), other)
    ensures (|other| <= |history| && forall k :: 0 <= k < |other| ==>
              && FromJson(other[k]).Some?
              && FromJson(other[k]).value.batchRoot == Merkle.Root(h, Hashes(history[k])))
         || Collision(h, ChainHashed(h, RecordedRoots(lines)) + LinesHashed(other))
         || GenesisPreimage(h, ChainHashed(h, RecordedRoots(lines)))
  {
    var roots := RecordedRoots(lines);
    LedgerAuthentic(h, verify, roots, other);
    if |other| <= |roots| && forall k :: 0 <= k < |other| ==> LineAuthentic(h, roots, other, k) {
      forall k | 0 <= k < |other|
        ensures FromJson(other[k]).Some?
        ensures FromJson(other[k]).value.batchRoot == Merkle.Root(h, Hashes(history[k]))
      {
        assert LineAuthentic(h, roots, other, k);
        assert Seals(h, lines[k], history[k]);
      }
    }
  }

  /** The whole chain of evidence: hand the auditor any ledger file that the chain check accepts,
      any bronze records and any siblings; an event that then verifies has the bytes that were
      sealed, unless the proof exhibits a hash collision or a preimage of the genesis root. */
  lemma EvidenceIsAuthentic(h: Hash, verify: Verify, lines: seq<Line>, rows: Rows, history: seq<Batch>,
                            other: seq<Line>, records: Records, siblings: Records, k: nat, i: nat, uids: seq<string>,
                            p: EventProof)
    requires Committed(h, verify, lines, rows, history) && DistinctUids(history) && IsListing(rows, k, uids)
    requires forall k :: 0 <= k < |lines| ==> FromJson(lines[k]).Some?
    requires Intact(h, Some(verify), other) && SignedOnly(h, verify, RecordedRoots(lines), other)
    requires Verified(h, verify, other, rows, history, records, siblings, k, i, uids, p)
    ensures h(records[history[k][i].uid].raw) == history[k][i].hash
         || Collision(h, Merkle.FoldHashed(h, h(records[history[k][i].uid].raw), p.path)
                         + Merkle.Hashed(h, Hashes(history[k])))
         || Collision(h, ChainHashed(h, RecordedRoots(lines)) + LinesHashed(other))
         || GenesisPreimage(h, ChainHashed(h, RecordedRoots(lines)))
  {
    hide EntriesBySeq, Merkle.Path, Merkle.Fold, Merkle.FoldHashed, Merkle.Root, Merkle.Hashed, Hashes, RecordedRoots, ChainHashed, LinesHashed, IndexOf;
    AcceptedMatches(h, verify, lines, rows, history, other);
    VerdictOnSealed(h, verify, lines, rows, history, records, siblings, k, i, uids);
    EntriesOfIntact(h, Some(verify), other, |other|);
    assert other[..|other|] == other;
    var leaves := LeavesOf(siblings, uids);
    IndexPlaces(history, |history|, k);
    assert rows[Uids(history[k])[i]] == Location(k, i);
    if |other| <= |history| && FromJson(other[k]).Some?
      && FromJson(other[k]).value.batchRoot == Merkle.Root(h, Hashes(history[k]))
    {
      Merkle.PathShape(h, leaves, i);
      Merkle.PathBinds(h, Hashes(history[k]), i, h(records[history[k][i].uid].raw), p.path);
    }
  }

  /** What one signed head stands for: two sealed histories of equal length with one head and equal
      leaf counts hold the same hashes, batch by batch -- or a collision is on the table. */
  lemma HeadFixesLeaves(h: Hash, verify: Verify, lines: seq<Line>, rows: Rows, history: seq<Batch>,
                        otherVerify: Verify, otherLines: seq<Line>, otherRows: Rows, otherHistory: seq<Batch>, k: nat)
    requires Committed(h, verify, lines, rows, history)
    requires Committed(h, otherVerify, otherLines, otherRows, otherHistory)
    requires |lines| == |otherLines| && PrevRoot(lines, |lines|) == PrevRoot(otherLines, |otherLines|)
    requires k < |history| && |history[k]| == |otherHistory[k]|
    ensures forall j :: 0 <= j < |lines| ==> FromJson(lines[j]).Some? && FromJson(otherLines[j]).Some?
    ensures Hashes(history[k]) == Hashes(otherHistory[k])
         || Collision(h, ChainHashed(h, RecordedRoots(lines)) + ChainHashed(h, RecordedRoots(otherLines)))
         || Collision(h, Merkle.Hashed(h, Hashes(history[k])) + Merkle.Hashed(h, Hashes(otherHistory[k])))
  {
    forall j | 0 <= j < |lines|
      ensures FromJson(lines[j]).Some? && FromJson(otherLines[j]).Some?
    {
      assert LineSound(h, Some(verify), lines, j) && LineSound(h, Some(otherVerify), otherLines, j);
    }
    HeadBinds(h, Some(verify), Some(otherVerify), lines, otherLines);
    if RecordedRoots(lines) == RecordedRoots(otherLines) {
      assert Seals(h, lines[k], history[k]) && Seals(h, otherLines[k], otherHistory[k]);
      assert RecordedRoots(lines)[k] == RecordedRoots(otherLines)[k];
      Merkle.RootBinds(h, Hashes(history[k]), Hashes(otherHistory[k]));
    }
  }

  // ----- when uids repeat -----

  /** Among the first n batches, leaf (k, i) is the last with its uid. */
  ghost predicate IsLastLeaf(history: seq<Batch>, n: nat, k: int, i: int) {
    && 0 <= k < n <= |history| && 0 <= i < |history[k]|
    && IsLast(Uids(history[k]), i, Uids(history[k])[i])
    && forall l :: k < l < n ==> Uids(history[k])[i] !in Uids(history[l])
  }

  /** The index holds exactly the last leaf of each uid, across batches. */
  lemma {:induction false} IndexHoldsLast(history: seq<Batch>, n: nat, uid: string)
    requires n <= |history|
    ensures uid in IndexOf(history, n) ==>
      var at := IndexOf(history, n)[uid];
      IsLastLeaf(history, n, at.ledgerSeq, at.leafIndex) && history[at.ledgerSeq][at.leafIndex].uid == uid
    ensures forall k, i :: IsLastLeaf(history, n, k, i) && history[k][i].uid == uid ==>
      uid in IndexOf(history, n) && IndexOf(history, n)[uid] == Location(k, i)
  {
    hide AddRows;
    if n > 0 {
      var last := Uids(history[n - 1]);
      IndexHoldsLast(history, n - 1, uid);
      AddRowsLast(IndexOf(history, n - 1), n - 1, last, |last|, uid);
      assert last[..|last|] == last;
      forall k, i | IsLastLeaf(history, n, k, i) && history[k][i].uid == uid
        ensures uid in IndexOf(history, n) && IndexOf(history, n)[uid] == Location(k, i)
      {
        if k < n - 1 {
          assert IsLastLeaf(history, n - 1, k, i);
        }
      }
    }
  }

  /** The positions below m of batch k that no later leaf replaces in the index. */
  ghost function Kept(history: seq<Batch>, k: nat, m: nat): (kept: seq<int>)
    requires k < |history| && m <= |history[k]|
    ensures |kept| <= m && forall a :: 0 <= a < |kept| ==> kept[a] < m
    ensures forall i :: i in kept <==> 0 <= i < m && IsLastLeaf(history, |history|, k, i)
    ensures Increasing(kept)
  {
    if m == 0 then [] else Kept(history, k, m - 1) + (if IsLastLeaf(history, |history|, k, m - 1) then [m - 1] else [])
  }

  predicate Increasing(a: seq<int>) {
    forall i, j :: 0 <= i < j < |a| ==> a[i] < a[j]
  }

  lemma LastIsGreatest(a: seq<int>, x: int)
    requires Increasing(a) && x in a
    ensures x <= a[|a| - 1]
  {}

  lemma InFront(a: seq<int>, x: int)
    requires Increasing(a) && a != []
    ensures x in a[..|a| - 1] <==> x in a && x != a[|a| - 1]
  {
    assert a == a[..|a| - 1] + [a[|a| - 1]];
  }

  ghost predicate SameMembers(a: seq<int>, b: seq<int>) {
    forall x :: x in a <==> x in b
  }

  lemma FrontsAgree(a: seq<int>, b: seq<int>)
    requires Increasing(a) && Increasing(b) && SameMembers(a, b) && a != [] && b != []
    ensures a[|a| - 1] == b[|b| - 1] && SameMembers(a[..|a| - 1], b[..|b| - 1])
  {
    var fa, fb, la, lb := a[..|a| - 1], b[..|b| - 1], a[|a| - 1], b[|b| - 1];
    assert la in a && lb in b;
    LastIsGreatest(a, lb);
    LastIsGreatest(b, la);
    forall x ensures x in fa <==> x in fb {
      InFront(a, x);
      InFront(b, x);
    }
  }

  lemma {:induction false} SameIncreasing(a: seq<int>, b: seq<int>)
    requires Increasing(a) && Increasing(b) && SameMembers(a, b)
    ensures a == b
    decreases |a|
  {
    if b != [] {
      assert b[0] in b && b[0] in a;
    }
    if a != [] {
      assert a[0] in a && a[0] in b;
      hide SameMembers;
      FrontsAgree(a, b);
      SameIncreasing(a[..|a| - 1], b[..|b| - 1]);
      assert a == a[..|a| - 1] + [a[|a| - 1]] && b == b[..|b| - 1] + [b[|b| - 1]];
    }
  }

  function LeafIndices(rows: Rows, uids: seq<string>): (at: seq<int>)
    requires forall j :: 0 <= j < |uids| ==> uids[j] in rows
    ensures |at| == |uids| && forall j :: 0 <= j < |uids| ==> at[j] == rows[uids[j]].leafIndex
  {
    seq(|uids|, j requires 0 <= j < |uids| => rows[uids[j]].leafIndex)
  }

  /** Reading batch k back lists its kept leaves, in order. */
  lemma ListingIsKept(history: seq<Batch>, k: nat, uids: seq<string>)
    requires k < |history| && IsListing(IndexOf(history, |history|), k, uids)
    ensures LeafIndices(IndexOf(history, |history|), uids) == Kept(history, k, |history[k]|)
  {
    hide IndexOf;
    var rows := IndexOf(history, |history|);
    var at, kept := LeafIndices(rows, uids), Kept(history, k, |history[k]|);
    forall j | 0 <= j < |uids|
      ensures at[j] in kept && history[k][at[j]].uid == uids[j]
    {
      IndexHoldsLast(history, |history|, uids[j]);
    }
    forall i | i in kept
      ensures i in at
    {
      IndexHoldsLast(history, |history|, history[k][i].uid);
      assert rows[history[k][i].uid] == Location(k, i);
      var j :| 0 <= j < |uids| && uids[j] == history[k][i].uid;
      assert at[j] == i;
    }
    forall a, b | 0 <= a < b < |at|
      ensures at[a] < at[b]
    {
      assert uids[a] != uids[b];
    }
    SameIncreasing(at, kept);
  }

  /** With any history, repeated uids included, and any store: looking up the last leaf (k, i) of a
      uid raises if and only if fewer than i + 1 leaves of its batch are kept. */
  lemma RaisesExactlyWhenShort(h: Hash, verifier: Option<Verify>, history: seq<Batch>, records: Records,
                               siblings: Records, entries: Entries, k: nat, i: nat, uids: seq<string>)
    requires IsLastLeaf(history, |history|, k, i) && history[k][i].uid in records && k in entries
    requires IsListing(IndexOf(history, |history|), k, uids)
    ensures var r := Verdict(h, verifier, records, IndexOf(history, |history|), entries,
                             LeavesOf(siblings, uids), history[k][i].uid);
      && (r.Err? <==> i >= |Kept(history, k, |history[k]|)|)
      && (r.Err? ==> r.error == Merkle.IndexOutOfRange)
  {
    ListingIsKept(history, k, uids);
    IndexHoldsLast(history, |history|, history[k][i].uid);
    assert i in Kept(history, k, |history[k]|);
  }

  /** With repeated uids, what an answer about a last leaf (k, i) consists of. */
  lemma AnswerOnKept(h: Hash, verify: Verify, lines: seq<Line>, rows: Rows, history: seq<Batch>,
                     records: Records, siblings: Records, k: nat, i: nat, uids: seq<string>)
    requires Committed(h, verify, lines, rows, history) && IsLastLeaf(history, |history|, k, i)
    requires history[k][i].uid in records && IsListing(rows, k, uids) && i < |uids|
    ensures EntriesBySeq(lines).Some? && |uids| <= |history[k]|
    ensures var leaves, record := LeavesOf(siblings, uids), records[history[k][i].uid];
      var r := Verdict(h, Some(verify), records, rows, EntriesBySeq(lines).value, leaves, history[k][i].uid);
      && r.Ok? && r.value.found && r.value.signatureOk && r.value.hashOk == (h(record.raw) == record.rawHash)
      && r.value.path == Merkle.Path(h, leaves, i)
      && r.value.proofOk == (Merkle.Fold(h, h(record.raw), r.value.path) == Merkle.Root(h, Hashes(history[k])))
  {
    ListingIsKept(history, k, uids);
    IndexHoldsLast(history, |history|, history[k][i].uid);
    EntriesOfIntact(h, Some(verify), lines, |lines|);
    assert lines[..|lines|] == lines;
    assert LineSound(h, Some(verify), lines, k);
    assert Seals(h, lines[k], history[k]);
  }

  /** Exactly when such an answer passes: the event's bytes hash to its recorded hash, and the padded tree
      over the leaves that are kept, with that hash put in place of leaf i, is the padded tree that was
      sealed, or the level of it that has the same height -- barring a collision. */
  lemma KeptLeafVerifiesExactly(h: Hash, verify: Verify, lines: seq<Line>, rows: Rows, history: seq<Batch>,
                                records: Records, siblings: Records, k: nat, i: nat, uids: seq<string>, p: EventProof)
    requires Committed(h, verify, lines, rows, history) && IsLastLeaf(history, |history|, k, i)
    requires history[k][i].uid in records && IsListing(rows, k, uids) && i < |uids|
    requires EntriesBySeq(lines).Some? && AllDigests(LeavesOf(siblings, uids))
    requires Verdict(h, Some(verify), records, rows, EntriesBySeq(lines).value,
                     LeavesOf(siblings, uids), history[k][i].uid) == Ok(p)
    ensures |uids| <= |history[k]| && i < |Merkle.Padded(LeavesOf(siblings, uids))|
    ensures Merkle.Height(|uids|) <= Merkle.Height(|history[k]|)
    ensures Merkle.Lift(h, Hashes(history[k]), Merkle.Height(|history[k]|) - Merkle.Height(|uids|)) != []
    ensures var leaves, record := LeavesOf(siblings, uids), records[history[k][i].uid];
      var sealed := Merkle.Lift(h, Hashes(history[k]), Merkle.Height(|history[k]|) - Merkle.Height(|uids|));
      var passes := h(record.raw) == record.rawHash
                 && Merkle.Padded(sealed) == Merkle.Padded(leaves)[i := h(record.raw)];
      && (passes ==> p.AllOk())
      && (p.AllOk() ==>
        || passes
        || Collision(h, Merkle.Hashed(h, Hashes(history[k])) + Merkle.Hashed(h, leaves)
                        + Merkle.FoldHashed(h, h(record.raw), p.path)))
  {
    hide Committed, Verdict, EntriesBySeq, IsListing, AllDigests, Collision;
    hide Merkle.Padded, Merkle.Lift, Merkle.Height, Merkle.Hashed, Merkle.FoldHashed, Merkle.Fold, Merkle.Path, Merkle.Root;
    AnswerOnKept(h, verify, lines, rows, history, records, siblings, k, i, uids);
    Merkle.FoldReachesExactly(h, LeavesOf(siblings, uids), i, h(records[history[k][i].uid].raw), Hashes(history[k]));
  }

  /** Why uids must be distinct: when any leaf of a batch is replaced, by a later leaf of the same
      batch or of a later one, and the last leaf of the batch is not, looking that one up raises. */
  lemma DuplicateUidFails(h: Hash, verifier: Option<Verify>, history: seq<Batch>, records: Records,
                          siblings: Records, entries: Entries, k: nat, gone: nat, uids: seq<string>)
    requires k < |history| && gone < |history[k]| - 1 && !IsLastLeaf(history, |history|, k, gone)
    requires IsLastLeaf(history, |history|, k, |history[k]| - 1)
    requires history[k][|history[k]| - 1].uid in records && k in entries
    requires IsListing(IndexOf(history, |history|), k, uids)
    ensures Verdict(h, verifier, records, IndexOf(history, |history|), entries, LeavesOf(siblings, uids),
                    history[k][|history[k]| - 1].uid) == Err(Merkle.IndexOutOfRange)
  {
    RaisesExactlyWhenShort(h, verifier, history, records, siblings, entries, k, |history[k]| - 1, uids);
    FewerKept(history, k, gone, |history[k]|);
  }

  lemma {:induction false} FewerKept(history: seq<Batch>, k: nat, gone: nat, m: nat)
    requires k < |history| && gone < m <= |history[k]| && !IsLastLeaf(history, |history|, k, gone)
    ensures |Kept(history, k, m)| < m
  {
    if gone < m - 1 {
      FewerKept(history, k, gone, m - 1);
    }
  }

  // ----- a whole run -----

  /** The stage's own file meets every hypothesis about the auditor's file. */
  lemma OwnEvidence(h: Hash, verify: Verify, lines: seq<Line>, rows: Rows, history: seq<Batch>)
    requires Committed(h, verify, lines, rows, history)
    ensures forall i :: 0 <= i < |lines| ==> FromJson(lines[i]).Some?
    ensures Intact(h, Some(verify), lines) && SignedOnly(h, verify, RecordedRoots(lines), lines)
  {
    OwnFileSignedOnly(h, verify, lines, |lines|);
    assert lines[..|lines|] == lines;
  }

  /** Each accepted leaf sits somewhere in the sealed history. */
  lemma {:induction false} LeafAt(history: seq<Batch>, e: nat) returns (k: nat, i: nat)
    requires e < |Concat(history)|
    ensures k < |history| && i < |history[k]| && history[k][i] == Concat(history)[e]
  {
    if e < |history[0]| {
      k, i := 0, e;
    } else {
      k, i := LeafAt(history[1..], e - |history[0]|);
      k := k + 1;
    }
  }

  datatype Received = Received(uid: string, raw: Bytes)

  function LeavesFor(h: Hash, events: seq<Received>): (leaves: Batch)
    ensures |leaves| == |events|
    ensures forall e :: 0 <= e < |events| ==> leaves[e] == Leaf(events[e].uid, h(events[e].raw))
  {
    seq(|events|, e requires 0 <= e < |events| => Leaf(events[e].uid, h(events[e].raw)))
  }

  /** The bronze store holds every received event under its uid. */
  ghost predicate Holds(h: Hash, records: Records, events: seq<Received>) {
    forall e :: 0 <= e < |events| ==>
      events[e].uid in records && records[events[e].uid] == Record(events[e].raw, h(events[e].raw))
  }

  ghost predicate DistinctEvents(events: seq<Received>) {
    forall a, b :: 0 <= a < b < |events| ==> events[a].uid != events[b].uid
  }

  lemma OneMoreReceived(h: Hash, records: Records, events: seq<Received>, e: nat)
    requires e < |events| && DistinctEvents(events) && Holds(h, records, events[..e])
    ensures Holds(h, records[events[e].uid := Record(events[e].raw, h(events[e].raw))], events[..e + 1])
    ensures LeavesFor(h, events[..e + 1]) == LeavesFor(h, events[..e]) + [Leaf(events[e].uid, h(events[e].raw))]
  {
    forall a | 0 <= a < e ensures events[a].uid != events[e].uid && events[..e][a] == events[a] {}
  }

  lemma FreshStart(h: Hash, verify: Verify)
    ensures Committed(h, verify, [], map[], []) && TailState([]) == (0, GENESIS_ROOT)
  {}

  method Receive(h: Hash, signer: Signer, batchSize: int, events: seq<Received>, now: int)
    returns (stage: IntegrityStage, records: Records)
    requires SignerWorks(signer) && DistinctEvents(events)
    ensures fresh(stage) && fresh(stage.ledger) && fresh(stage.ledger.file) && fresh(stage.index)
    ensures stage.Valid() && stage.enabled && !stage.closed && stage.base == 0
    ensures stage.ledger.hash == h && stage.ledger.signer == Some(signer) && stage.ledger.verifier == Some(signer.verify)
    ensures stage.accepted == LeavesFor(h, events) && Holds(h, records, events)
    ensures SealedAt([], stage.ledger.file.lines, now)
  {
    hide IntegrityStage.Valid, Committed, TailState, LeavesFor, SignerWorks;
    var file := new LedgerFile();
    var ledger := new IntegrityLedger(file, h, Some(signer), None);
    var index := new IntegrityIndex();
    FreshStart(h, signer.verify);
    stage := new IntegrityStage(true, batchSize, 0.0, ledger, index, []);
    records := map[];
    assert LeavesFor(h, events[..0]) == [];
    for e := 0 to |events|
      invariant stage.Valid() && !stage.closed
      invariant stage.accepted == LeavesFor(h, events[..e]) && Holds(h, records, events[..e])
      invariant SealedAt([], stage.ledger.file.lines, now)
    {
      OneMoreReceived(h, records, events, e);
      stage.Process(events[e].uid, h(events[e].raw), 0.0, now);
      records := records[events[e].uid := Record(events[e].raw, h(events[e].raw))];
    }
    assert events[..|events|] == events;
  }

  /** A line that states size, first and last event, and sealing time of its batch. */
  ghost predicate NamesItsBatch(line: Line, batch: Batch, now: int) {
    && FromJson(line).Some? && batch != []
    && var entry := FromJson(line).value;
    && entry.leafCount == |batch|
    && entry.firstEventUid == Some(batch[0].uid)
    && entry.lastEventUid == Some(batch[|batch| - 1].uid)
    && entry.sealedAtNs == now
  }

  /** Receives events, seals them with a fresh ledger and index, shuts down and hands the bronze
      store and the artefacts to a proof builder: every event verifies. */
  method SealAndVerify(h: Hash, signer: Signer, batchSize: int, events: seq<Received>, now: int)
    returns (stage: IntegrityStage, proofs: seq<EventProof>)
    requires SignerWorks(signer) && DistinctEvents(events)
    ensures |proofs| == |events|
    ensures forall e :: 0 <= e < |events| ==> proofs[e].AllOk() && proofs[e].uid == events[e].uid
    ensures stage.pending == [] && Concat(stage.history) == LeavesFor(h, events)
    ensures |stage.ledger.file.lines| == |stage.history|
    ensures forall k :: 0 <= k < |stage.history| ==>
      NamesItsBatch(stage.ledger.file.lines[k], stage.history[k], now)
    ensures Committed(h, signer.verify, stage.ledger.file.lines, stage.index.rows, stage.history)
    ensures forall i :: 0 <= i < |stage.ledger.file.lines| ==> FromJson(stage.ledger.file.lines[i]).Some?
    ensures SignedOnly(h, signer.verify, RecordedRoots(stage.ledger.file.lines), stage.ledger.file.lines)
  {
    var records;
    stage, records := Receive(h, signer, batchSize, events, now);
    stage.Flush(now);
    ghost var history := stage.history;
    assert Committed(h, signer.verify, stage.ledger.file.lines, stage.index.rows, history);
    assert Concat(history) == LeavesFor(h, events) by {
      assert history[0..] == history;
    }
    OwnEvidence(h, signer.verify, stage.ledger.file.lines, stage.index.rows, history);
    assert forall k :: 0 <= k < |history| ==> NamesItsBatch(stage.ledger.file.lines[k], history[k], now) by {
      forall k | 0 <= k < |history|
        ensures NamesItsBatch(stage.ledger.file.lines[k], history[k], now)
      {
        assert Seals(h, stage.ledger.file.lines[k], history[k]) && history[k] != [];
      }
    }
    proofs := VerifyAll(stage, records, h, signer.verify, events, history);
  }

  method VerifyAll(stage: IntegrityStage, records: Records, h: Hash, verify: Verify, events: seq<Received>,
                   ghost history: seq<Batch>)
    returns (proofs: seq<EventProof>)
    requires Committed(h, verify, stage.ledger.file.lines, stage.index.rows, history)
    requires Concat(history) == LeavesFor(h, events) && Holds(h, records, events) && DistinctEvents(events)
    requires stage.ledger.hash == h && stage.ledger.verifier == Some(verify)
    ensures |proofs| == |events|
    ensures forall e :: 0 <= e < |events| ==> proofs[e].AllOk() && proofs[e].uid == events[e].uid
  {
    hide Committed, LeavesFor, Holds, EventProof.AllOk, IsAnswer, DistinctUids, DistinctEvents;
    var lines := stage.ledger.file.lines;
    EventsDistinct(h, events, history);
    CommittedReads(h, verify, lines, stage.index.rows, history);
    var store := new BronzeStore(records);
    var built := ProofBuilder.Open(store, stage.index, stage.ledger, None);
    var builder := built.value;
    proofs := [];
    for e := 0 to |events|
      invariant |proofs| == e && builder.Valid() && store.records == records
      invariant builder.entries == EntriesBySeq(lines).value
      invariant forall a :: 0 <= a < e ==> proofs[a].AllOk() && proofs[a].uid == events[a].uid
    {
      var r := builder.ForEvent(events[e].uid);
      AnswerIsOk(h, verify, lines, stage.index.rows, history, events, records, e, r);
      proofs := proofs + [r.value];
    }
  }

  lemma EventsDistinct(h: Hash, events: seq<Received>, history: seq<Batch>)
    requires Concat(history) == LeavesFor(h, events) && DistinctEvents(events)
    ensures DistinctUids(history)
  {
    hide Concat;
    StreamDistinct(history);
  }

  lemma CommittedReads(h: Hash, verify: Verify, lines: seq<Line>, rows: Rows, history: seq<Batch>)
    requires Committed(h, verify, lines, rows, history)
    ensures EntriesBySeq(lines).Some?
  {
    EntriesOfIntact(h, Some(verify), lines, |lines|);
    assert lines[..|lines|] == lines;
  }

  lemma AnswerIsOk(h: Hash, verify: Verify, lines: seq<Line>, rows: Rows, history: seq<Batch>,
                   events: seq<Received>, records: Records, e: nat, r: Result<EventProof, Merkle.MerkleError>)
    requires Committed(h, verify, lines, rows, history) && DistinctUids(history)
    requires Concat(history) == LeavesFor(h, events) && Holds(h, records, events) && e < |events|
    requires EntriesBySeq(lines).Some?
    requires IsAnswer(h, Some(verify), records, records, rows, EntriesBySeq(lines).value, events[e].uid, r)
    ensures r.Ok? && r.value.AllOk() && r.value.uid == events[e].uid
  {
    hide Committed, DistinctUids, Holds, LeavesFor, IsAnswer, EntriesBySeq, HashesStored, IsListing, EventProof.AllOk, Concat;
    hide Verdict, LeavesOf;
    var k, i := LeafAt(history, e);
    SealedStored(h, history, events, records, k);
    LeafStored(h, history, events, records, e, k, i);
    LeafPlaced(h, verify, lines, rows, history, k, i);
    var uids := AnswerListing(h, Some(verify), records, rows, EntriesBySeq(lines).value, events[e].uid, r);
    SealedEventVerifies(h, verify, lines, rows, history, records, records, k, i, uids);
    VerdictNames(h, Some(verify), records, rows, EntriesBySeq(lines).value, LeavesOf(records, uids), events[e].uid);
  }

  lemma SealedStored(h: Hash, history: seq<Batch>, events: seq<Received>, records: Records, k: nat)
    requires Concat(history) == LeavesFor(h, events) && Holds(h, records, events) && k < |history|
    ensures HashesStored(records, history[k])
  {
    forall j | 0 <= j < |history[k]|
      ensures history[k][j].uid in records && records[history[k][j].uid].rawHash == history[k][j].hash
    {
      ConcatAt(history, k, j);
    }
  }

  lemma LeafStored(h: Hash, history: seq<Batch>, events: seq<Received>, records: Records, e: nat, k: nat, i: nat)
    requires Concat(history) == LeavesFor(h, events) && Holds(h, records, events) && e < |events|
    requires k < |history| && i < |history[k]| && history[k][i] == Concat(history)[e]
    ensures history[k][i].uid == events[e].uid && events[e].uid in records
    ensures records[events[e].uid].rawHash == history[k][i].hash == h(records[events[e].uid].raw)
  {}

  lemma LeafPlaced(h: Hash, verify: Verify, lines: seq<Line>, rows: Rows, history: seq<Batch>, k: nat, i: nat)
    requires Committed(h, verify, lines, rows, history) && DistinctUids(history) && k < |history| && i < |history[k]|
    ensures EntriesBySeq(lines).Some? && k in EntriesBySeq(lines).value
    ensures history[k][i].uid in rows && rows[history[k][i].uid] == Location(k, i)
  {
    IndexPlaces(history, |history|, k);
    assert rows[Uids(history[k])[i]] == Location(k, i);
    EntriesOfIntact(h, Some(verify), lines, |lines|);
    assert lines[..|lines|] == lines;
  }

  lemma AnswerListing(h: Hash, verifier: Option<Verify>, records: Records, rows: Rows, entries: Entries, uid: string,
                      r: Result<EventProof, Merkle.MerkleError>) returns (uids: seq<string>)
    requires IsAnswer(h, verifier, records, records, rows, entries, uid, r)
    requires uid in records && uid in rows && rows[uid].ledgerSeq in entries
    ensures IsListing(rows, rows[uid].ledgerSeq, uids)
    ensures r == Verdict(h, verifier, records, rows, entries, LeavesOf(records, uids), uid)
  {
    hide Verdict, LeavesOf, IsListing;
    var leaves :| r == Verdict(h, verifier, records, rows, entries, leaves, uid)
      && AreBatchLeaves(rows, records, rows[uid].ledgerSeq, leaves);
    uids :| IsListing(rows, rows[uid].ledgerSeq, uids) && leaves == LeavesOf(records, uids);
  }

  lemma VerdictNames(h: Hash, verifier: Option<Verify>, records: Records, rows: Rows, entries: Entries,
                     leaves: seq<Bytes>, uid: string)
    ensures var r := Verdict(h, verifier, records, rows, entries, leaves, uid); r.Ok? ==> r.value.uid == uid
  {
    hide Merkle.Fold, Merkle.Path;
  }
}
