# ULPF: a verified model of its evidence chain, decoders and step protocols

ULPF ingests log lines, keeps the raw bytes as evidence, normalizes them and delivers them. This
project models the parts of it whose correctness is decided by branches, arithmetic or
interleaving, and proves what the code and its documentation promise about them. Nothing is
assumed: SHA-256 is an arbitrary total function to 32-byte digests, and every binding statement
reads "equal, or here is a collision among the strings these computations really hashed". The
Ed25519 verifier is an arbitrary predicate; where authenticity is claimed, every signature in the
file presented that it accepts was made for a chained root of this ledger. The stage's own file
meets that (`Ledger.OwnFileSignedOnly`, and over a whole run `EndToEnd.SealAndVerify`). `dafny verify dfyconfig.toml` checks everything; `hide` statements only narrow what a proof may use.

| module | models | main results |
|---|---|---|
| `Core`, `Ascii` | bytes, digests, digit runs | shared vocabulary and lemmas |
| `Merkle` | batch roots, authentication paths | completeness, shape, binding, and what a shared root means, for lists of any lengths |
| `Ledger` | the chained, signed NDJSON ledger | an accepted file is a prefix of what was written; the head fixes every batch root |
| `Index`, `Stage`, `Proofs` | SQLite index, batching stage, proof builder | each call keeps ledger, index and sealed history in agreement; batches close by size and by time; nothing passes without an accepted signature |
| `EndToEnd` | the five files together | whatever was sealed verifies; whatever verifies was sealed; which lookups raise and which pass when uids repeat |
| `SyslogTcp` | RFC 6587 framing and the octet-counting sender | chunk independence, mixed-framing round trip with its exact domain, and what becomes of an unterminated end |
| `FileTail`, `FileTailRuns` | the rotation-aware tailer | exactly once, if and only if no cancellation hits between two lines of one chunk; at least once over crashes; each file of a rotation or seen truncation once, from its first byte; what starting at the end delivers |
| `SyslogEnvelope` | the RFC 5424 header parser | printing and parsing are inverse; every split is reversible; which format an input is taken for |
| `CidrTrie` | the linked longest-prefix trie | heap structure refines a list of prefixes, at 32 and 128 bits |
| `ClickHouseSink`, `ClickHouseRuns`, `ClickHouseProgress` | never-drop sink | conservation at every point of every interleaving, the two ways in which a row can be lost, and how often a drain and a close try |
| `Pipeline`, `PipelineOrder` | worker pool, queue, shutdown | exact accounting, order, every stage passed, drain-then-sentinel shutdown, when acknowledged and handled differ |
| `Compaction`, `CompactionPass`, `CompactionSize` | small-file compaction | no row lost at any step, crashes included; exactly when queries see each row once |
| `Drift` | EWMA/Poisson drift detector | baseline bounds, exactly which outages stay flagged, restored detectors behave alike |
| `Histogram` | quantiles from scrapes | the interpolation, its exact monotonicity condition, true-bucket accuracy |
| `NestedRecord` | dotted writes into nested dictionaries | a write shows in the record if and only if no later one overwrites it |
| `Mapper`, `MapperValues` | OCSF field mapper | the record of every call, what it holds at each target, and exactly which source fields appear nowhere in it |
| `SharedRecord` | dictionaries given as constants, by reference | when the stamps of an earlier record survive |

Code that changes things in place is modelled by classes and loops proved against functions; the
lemmas are about those functions. Protocols whose steps interleave at awaits or filesystem calls
(`ClickHouseSink`, `Pipeline`, `Compaction`) are transition systems with one action per such step,
and their results quantify over every run.

## Where the code and its documentation disagree

- `ulpf/core/pipeline.py:53-55` and `ulpf/core/pipeline.py:355-358` say that an event in flight when a
  partition-aware worker is cancelled is never acknowledged. The `finally` at
  `ulpf/core/pipeline.py:365-366` acknowledges it, unless that await is cut off in turn. The model
  follows the code; `AcknowledgedExactly` says when an event is acknowledged without having been
  handled, and when it is handled without being acknowledged.
- `ulpf/sinks/clickhouse_sink.py:25-28` says that nothing is ever lost. There are two ways to lose an
  accepted row, and no other (`NothingLost`). One is to write it between the spooling and the end of
  `close` (`LateWriteCanBeLost`). The other is a `close` that is cut off and not called again before the
  process ends: cancelled (`CancelledCloseLoses`), or raising, as it does at
  `ulpf/sinks/clickhouse_sink.py:129-130` once the timer has died of an error; then no `close` ever gets
  as far as spooling (`DeadTimerLoses`, `DeadTimerNeverCloses`). `WriteLostExactly` has the exact
  condition.
- `ulpf/sinks/compaction.py:20-23` says that compaction never changes query results. From the first
  rename to the last unlink of a file with rows, rows are visible twice, and a pass that dies in
  between leaves the copies for good: `CrashDuplicates`, with the exact condition in `VisibleExactly`.
- `ulpf/ml/drift.py:36-39` says that an outage stays flagged for as long as it lasts. It does if and only
  if the count expected before it reaches the squared threshold in each window (`OutageStaysFlagged`);
  below that it is never flagged and the baseline decays (`QuietOutageUnnoticed`).
- `ulpf/normalize/mapper.py:25-27` says that nothing a parser extracted is ever lost. A field appears
  nowhere in the record when the rules that read it write nothing, or only a default, or are overwritten,
  and it is not copied to `unmapped`: `LostExactly`, with inputs in `ActionIsLost` and, for a default,
  `DefaultHidesAction`, where two values of the field give one and the same record. The second happens in
  `configs/sources/aws_vpc_flow.yaml:76-78`.
- `ulpf/integrity/ledger.py:44-45` says that the signed chained root commits to every event. It fixes
  every batch root (`HeadBinds`), and with equal leaf counts every leaf (`HeadFixesLeaves`); but
  repeating the last leaf of an odd batch keeps the root (`OddDuplicateSharesRoot`), so does
  replacing a batch by a level above it (`InnerLevelSharesRoot`), and `leaf_count` is itself not
  signed (`UnsignedFieldsFree`).
- `ulpf/ingest/file_tail.py:7-9` says that a restart resumes without re-reading or missing data, and
  `watch` saves offsets once more on exit for that (lines 118-119). But the position is advanced past
  a chunk before its lines are handed on, so a cancellation between them, as when
  `ulpf/core/runtime.py:333` times out, saves an offset past lines that were never delivered:
  `CancelLosesLines`, with the exact condition in `TailExactlyOnce`. With `start_at_end`, a crash before
  the first offset is saved loses lines as well (`CrashAtEndLosesLine`).
- `ulpf/ingest/file_tail.py:10-12` says that truncation is handled by noticing that the file shrank below
  the saved offset. Only a running tailer notices (`TruncatedOnce`); one that is restarted resumes at the
  end of the shorter file and never delivers what it holds (`TruncatedRestartSkips`). A file that has grown
  again to the position read is not noticed at all, and a fragment held of the old content is joined to the
  new one (`RegrownIsJoined`), under the exact condition in `FirstPassExactly`.
- `ulpf/ingest/file_tail.py:13-15` says that a half-written record is never handed downstream. A tailer
  that starts at the end of a file which stops within a line delivers the tail of that line:
  `StartAtEndExactly`.
- `ulpf/parse/syslog_envelope.py:18-19` lists three escapes in parameter values. A backslash before any
  other byte is dropped too, while section 6.3.3 of RFC 5424 takes it for a regular one: `QuotedReads`.
- `ulpf/ingest/syslog_tcp.py:60-73` turns an unusable count into an `IngestError`, but a count of more
  than 4300 digits makes CPython's `int` raise `ValueError`; the model has it as `CountTooLong`.
  `CountTooLongExactly` and `ConnectionFailsExactly` say when, `LongCountFails` gives the input.
- `bench/replay.py:355-373` interpolates the first bucket from zero, so with a negative first bound
  the quantile falls as q grows: `MonotoneExactlyWhenAboveZero`.

## Model

| member | source | states |
|---|---|---|
| `Merkle.HashLevel` | ulpf/integrity/merkle.py:121-125 | the loop computes the level above, whose i-th node hashes children 2i and 2i+1, a lone last node being its own sibling |
| `Merkle.UpAt` | ulpf/integrity/merkle.py:121-125 | node by node, which two nodes below are hashed, with the duplicated last one |
| `Merkle.MerkleRoot` | ulpf/integrity/merkle.py:48-60 | folding level by level yields the root function the lemmas are about; the empty batch has the digest of no bytes, a single leaf is its own root, and two and three leaves have the roots written out |
| `Merkle.MerkleProof` | ulpf/integrity/merkle.py:63-89 | returns the authentication path, or the two errors for an empty list and an index out of range, and nothing else |
| `Merkle.VerifyProof` | ulpf/integrity/merkle.py:92-110 | accepts exactly when folding the path over the leaf gives the root; the first invalid side raises |
| `Merkle.PathVerifies` | ulpf/integrity/merkle.py:63-110 | completeness: for every non-empty list and valid index, the path built verifies against the root built |
| `Merkle.PathShape` | ulpf/integrity/merkle.py:79-89 | path length is the tree height and the k-th side is the k-th binary digit of the index |
| `Merkle.HeightIsLog` | ulpf/integrity/merkle.py:82-88 | for n > 1 leaves, 2^(height-1) < n <= 2^height |
| `Merkle.PathBinds` | ulpf/integrity/merkle.py:92-110 | any accepted path of the right shape starts at the sealed leaf and is the honest path, or a collision is shown; siblings may be of any length |
| `Merkle.PaddedUp` | ulpf/integrity/merkle.py:121-125 | going one level up commutes with writing out all duplications as a perfect tree |
| `Merkle.SameRootIffSamePadding` | ulpf/integrity/merkle.py:48-60 | lists of equal height share a root if and only if their padded trees agree, barring a collision |
| `Merkle.SameRootIffLiftedPadding` | ulpf/integrity/merkle.py:48-60 | lists of any lengths share a root if and only if, the taller taken up to the height of the other, their padded trees agree, barring a collision |
| `Merkle.InnerLevelSharesRoot` | ulpf/integrity/merkle.py:116-118 | leaves and inner nodes are hashed alike: a list shares its root with each level above it |
| `Merkle.FoldReplaces` | ulpf/integrity/merkle.py:92-110 | folding any string along the path of a leaf gives the root of the padded tree with the string in place of that leaf, and hashes nothing else |
| `Merkle.FoldReachesExactly` | ulpf/integrity/merkle.py:92-110 | so a path built over too few leaves reaches the root of a longer list if and only if that padded tree is the longer list's level of the same height, barring a collision |
| `Merkle.RootBinds` | ulpf/integrity/merkle.py:48-60 | lists of equal length with one root are equal, or a collision is shown |
| `Merkle.OddDuplicateSharesRoot` | ulpf/integrity/merkle.py:51-52 | without equal lengths binding fails: repeating the last of an odd number of leaves keeps the root |
| `Ledger.IntegrityLedger.constructor` | ulpf/integrity/ledger.py:157-168 | on any file, reopening recovers the number after, and the chained root of, the last line before the first that does not parse, or the genesis state; a signer brings its own verifier |
| `Ledger.IntegrityLedger.AppendBatch` | ulpf/integrity/ledger.py:184-212 | appends one line that chains and signs the batch root, counts the leaves, names the first and the last uid, or none, and bears the time of sealing, and advances both fields by it; a read-only ledger raises and changes nothing |
| `Ledger.IntegrityLedger.IterChecked` | ulpf/integrity/ledger.py:222-236 | one verdict per line against its predecessor, stopping after the first fault and not before |
| `Ledger.IntegrityLedger.VerifyChain` | ulpf/integrity/ledger.py:238-248 | true if and only if every line is sound; otherwise the position of the first line that is not |
| `Ledger.VerdictMeansSound` | ulpf/integrity/ledger.py:252-270 | a line has no fault exactly when sequence, link, chained root and signature are all right |
| `Ledger.FaultIsFirst` | ulpf/integrity/ledger.py:252-270 | the fault reported is the first check that fails, in the order unparseable, number, link, chained root, missing key, signature |
| `Ledger.ParsesExactly` | ulpf/integrity/ledger.py:252-257 | a line parses if and only if it is an object with three roots of 32 bytes and a signature of 64 |
| `Ledger.IntactTail` | ulpf/integrity/ledger.py:160-168 | on an intact file, reopening recovers exactly the position after the last line |
| `Ledger.AppendKeepsIntact` | ulpf/integrity/ledger.py:184-212 | appending keeps an intact file intact if and only if the batch is not a single leaf of a length other than 32 |
| `Ledger.HeadCommits` | ulpf/integrity/ledger.py:132-134 | the last chained root of an intact file is the fold of every batch root before it |
| `Ledger.HeadBinds` | ulpf/integrity/ledger.py:44-45 | two intact files of equal length with one head record the same batch roots, or a collision is shown |
| `Ledger.LedgerAuthentic` | ulpf/integrity/ledger.py:222-270 | if the signatures in an accepted file that verify were made for chained roots of this ledger, the file is on its roots a prefix of what was written, or a collision or a preimage of the genesis root is shown |
| `Ledger.OwnFileSignedOnly` | ulpf/integrity/ledger.py:184-212 | every intact file, and every file cut off from it, meets that hypothesis for its own batch roots |
| `Ledger.UnsignedFieldsFree` | ulpf/integrity/ledger.py:44-45 | leaf counts, uids and times can be rewritten at will without changing the verdict |
| `Index.IntegrityIndex.AddBatch` | ulpf/integrity/index.py:43-51 | inserts or replaces one row per uid, in order |
| `Index.AddRowsLast` | ulpf/integrity/index.py:43-59 | after a batch with any uids was added, a lookup answers the last position of the uid in it, or what it answered before |
| `Index.IntegrityIndex.EventUidsForBatch` | ulpf/integrity/index.py:61-67 | every uid of the batch once, ordered by leaf index, and no other |
| `Index.AddRowsPlaces` | ulpf/integrity/index.py:43-51 | distinct uids land at their leaf indices and no other row moves |
| `Index.ListingIsBatch` | ulpf/integrity/index.py:61-67 | reading a batch back returns its uids in sealing order |
| `Stage.IntegrityStage.constructor` | ulpf/integrity/stage.py:68-87 | without a key or when disabled the stage is a pass-through; otherwise it starts in agreement with ledger and index; batch size and timeout are the configured ones, at least one and zero |
| `Stage.IntegrityStage.Process` | ulpf/integrity/stage.py:89-100 | the event joins the pending batch, which is sealed exactly when it reaches the batch size; a closed or disabled stage changes nothing; earlier lines stay and a new one bears the present time |
| `Stage.IntegrityStage.Watch` | ulpf/integrity/stage.py:143-160 | with a positive timeout and before shutdown, seals the pending batch if and only if its first event plus the timeout is not after the present time; otherwise changes nothing |
| `Stage.IntegrityStage.Flush` | ulpf/integrity/stage.py:102-113 | nothing stays pending: the sealed batches concatenated are all events accepted, in order |
| `Stage.IntegrityStage.Seal` | ulpf/integrity/stage.py:162-183 | one more sealed batch, with ledger line and index rows to match |
| `Stage.ProcessThenWatch` | ulpf/integrity/stage.py:89-160 | events too few to fill a batch are sealed together by the watcher if and only if the timeout has passed since the first of them, whenever the others came |
| `Stage.SealStep` | ulpf/integrity/stage.py:172-175 | a ledger line and rows for one batch extend the committed history by exactly that batch |
| `Proofs.ProofBuilder.Open` | ulpf/integrity/proofs.py:58-80 | entries keyed by sequence number; a malformed ledger line raises |
| `Proofs.ProofBuilder.BatchLeaves` | ulpf/integrity/proofs.py:136-149 | cached or not, the recorded hashes of the listed events in leaf order, 32 zero bytes for a missing event |
| `Proofs.ProofBuilder.ForEvent` | ulpf/integrity/proofs.py:82-134 | the verdict on an event over the leaves of its batch, stored or cached, field by field: found, the hash check, the fold of the path against the recorded root, the signature of the recorded chained root, and both not-found cases; the raising one only for a sealed event |
| `Proofs.ProofBuilder.Examine` | ulpf/integrity/proofs.py:112-134 | path, root comparison and signature check of a stored event with a ledger entry |
| `Proofs.AnswerNeedsSignature` | ulpf/integrity/proofs.py:112-134 | for any ledger file that parses, intact or not, and any records, index and siblings: an event passes if and only if it is found, its bytes hash to the recorded hash, its path leads to the root of its line, and the verifier accepts that line; without a verifier none does |
| `Proofs.EntriesAreLines` | ulpf/integrity/proofs.py:77-79 | the entry kept for a number is the last line that bears it |
| `EndToEnd.StreamDistinct` | ulpf/integrity/stage.py:89-100 | distinct uids in the accepted stream make all sealed uids distinct, across batches |
| `EndToEnd.IndexPlaces` | ulpf/integrity/index.py:43-67 | after any number of batches each occupies exactly its own rows |
| `EndToEnd.SealedEventVerifies` | ulpf/integrity/proofs.py:82-134 | completeness: every sealed event of an untouched store verifies |
| `EndToEnd.VerifiedEventWasSealed` | ulpf/integrity/proofs.py:82-149 | soundness: with bronze and event cache changed at will, an event that verifies has the bytes sealed at its position, or a collision is shown |
| `EndToEnd.VerifiedExactlyWhenIntact` | ulpf/integrity/proofs.py:112-134 | for stored hashes of any lengths: an event verifies if and only if its bytes hash to the recorded hash and the recorded hashes pair up as the sealed ones do -- being equal, when all are digests -- or a collision is shown |
| `EndToEnd.EvidenceIsAuthentic` | ulpf/integrity/ledger.py:20-26 | for any accepted ledger file, bronze records and siblings, a verified event has its sealed bytes, or a collision or genesis preimage is shown |
| `EndToEnd.HeadFixesLeaves` | ulpf/integrity/ledger.py:44-45 | two sealed histories of equal length with one head and equal leaf counts hold the same hashes, or a collision is shown |
| `EndToEnd.IndexHoldsLast` | ulpf/integrity/index.py:43-59 | whatever uids repeat, the index holds exactly the last leaf of each, across batches |
| `EndToEnd.RaisesExactlyWhenShort` | ulpf/integrity/proofs.py:112-115 | with any history and store, looking up the last leaf of a uid raises if and only if its batch keeps no more leaves than its index |
| `EndToEnd.KeptLeafVerifiesExactly` | ulpf/integrity/proofs.py:112-134 | and when it does not raise, it passes if and only if its bytes hash to the recorded hash and the padded tree over the kept leaves, with that hash in place of its leaf, is the sealed one or the level of it with the same height, barring a collision |
| `EndToEnd.DuplicateUidFails` | ulpf/integrity/index.py:47-48 | when any leaf of a batch is replaced, in its own batch or by a later one, and the last leaf is not, looking that one up raises |
| `EndToEnd.SealAndVerify` | ulpf/integrity/stage.py:89-113 | a whole run: distinct events received, sealed and flushed by a fresh stage all verify in a fresh proof builder, each ledger line states the size, first and last event and sealing time of its batch, and the file meets the hypotheses about evidence |
| `SyslogTcp.PopFrame` | ulpf/ingest/syslog_tcp.py:87-104 | the digit loop decides frame, error or need for more like the framing function |
| `SyslogTcp.LastFrame` | ulpf/ingest/syslog_tcp.py:107-121 | what is left at end of stream without its trailing CR and LF bytes and nothing else cut off; nothing for a count, whole or begun, or for line ends alone |
| `SyslogTcp.ReadFrames` | ulpf/ingest/syslog_tcp.py:124-146 | frames, error and tail depend only on the concatenated bytes, as `Decode` reads them, however the reads cut them; terminates |
| `SyslogTcp.DecidedStaysDecided` | ulpf/ingest/syslog_tcp.py:60-104 | a frame or error decided on a buffer does not change when bytes arrive later |
| `SyslogTcp.MixedRoundTrip` | ulpf/ingest/syslog_tcp.py:87-146 | any list of messages, each framed by count or by line, decodes to itself (sections 3.4.1 and 3.4.2 of RFC 6587) |
| `SyslogTcp.MixedThenTail` | ulpf/ingest/syslog_tcp.py:87-146 | and what follows them is read as if it stood alone |
| `SyslogTcp.MixedThenUnterminated` | ulpf/ingest/syslog_tcp.py:107-146 | after any messages, a last one without its line end is delivered at the end of the stream, without its trailing CR bytes |
| `SyslogTcp.UnterminatedExactly` | ulpf/ingest/syslog_tcp.py:107-146 | and comes back unchanged if and only if it is not empty, holds no LF, does not end in CR, and neither starts with a count nor is all digits |
| `SyslogTcp.CutShortIsDropped` | ulpf/ingest/syslog_tcp.py:107-146 | a counted message cut short within its count or its body delivers nothing after the messages before it |
| `SyslogTcp.AnyCountReads` | ulpf/ingest/syslog_tcp.py:60-104 | any digits that make the length of the body announce it, and an empty body is skipped |
| `SyslogTcp.ZerosCountNothing` | ulpf/ingest/syslog_tcp.py:64 | leading zeros do not change a count |
| `SyslogTcp.CountTooLongExactly` | ulpf/ingest/syslog_tcp.py:60-73 | the undocumented error comes exactly from a count of more than 4300 digits |
| `SyslogTcp.ConnectionFailsExactly` | ulpf/ingest/syslog_tcp.py:124-146 | a connection ends with it if and only if what follows its last whole frame starts with such a count |
| `SyslogTcp.LongCountFails` | ulpf/ingest/syslog_tcp.py:64 | the input: after any messages, 4301 digits and a space |
| `SyslogTcp.NewlineExact` | ulpf/ingest/syslog_tcp.py:76-84 | a line comes back alone and unchanged if and only if it is non-empty, has no LF, no CR at its end and does not start with digits and a space |
| `SyslogTcp.CountedExact` | ulpf/ingest/syslog_tcp.py:60-73 | a counted message comes back if and only if its length is within the limit and printable |
| `SyslogTcp.TcpSender.SendOne` | bench/replay.py:418-423 | wire plus buffer always encode the lines so far; the buffer goes out as a whole exactly when it reaches the batch size |
| `SyslogTcp.TcpSender.Flush` | bench/replay.py:425-428 | the wire holds the encoding of every line sent |
| `SyslogTcp.SenderReadsBack` | bench/replay.py:418-428 | what a flushed sender wrote is read back line by line |
| `FileTail.SplitLines` | ulpf/ingest/file_tail.py:55-69 | non-blank lines without their CR, and the unterminated rest |
| `FileTail.PartsAreLines` | ulpf/ingest/file_tail.py:55-69 | splitting at every LF agrees with the byte-by-byte definition of lines |
| `FileTail.LinesAppend` | ulpf/ingest/file_tail.py:195-213 | splitting resumes from the held remainder without loss or repetition |
| `FileTail.WrittenReadBack` | ulpf/ingest/file_tail.py:55-69 | lines written with LF or CR LF read back as they are, blank ones dropped, and what follows the last line end is held |
| `FileTail.BoundaryCut` | ulpf/ingest/file_tail.py:241-251 | the saved offset is a line boundary before which all complete lines lie |
| `FileTail.FileTailer.PollOnce` | ulpf/ingest/file_tail.py:132-165 | one pass, branch by branch: a file of another inode, or shorter than what was read, is delivered from its start without the fragment held; a grown one from the position reached; at the start of a process from the saved offset of the same inode, else from the start or the end as configured; the boundary is persisted, independent of the read size |
| `FileTail.FileTailer.ScanFile` | ulpf/ingest/file_tail.py:167-193 | the same for one scan, which persists nothing |
| `FileTail.FileTailer.ReadNew` | ulpf/ingest/file_tail.py:195-213 | reading in chunks equals reading at once |
| `FileTail.FileTailer.SaveOffsets` | ulpf/ingest/file_tail.py:241-251 | persists position minus held remainder, never below zero |
| `FileTailRuns.RunInStepBut` | ulpf/ingest/file_tail.py:167-251 | over any run without crashes in which no old fragment is joined: held rest and saved boundary agree with the present content, and of the lines due in all contents so far just those are missing that cancellations cut off |
| `FileTailRuns.TailExactlyOnce` | ulpf/ingest/file_tail.py:115-251 | over any such run of growth, rotation, truncation, polls, scans, clean restarts and cancelled passes, the lines of the consumed part of each content are delivered in order, once each, if and only if no cancellation hits with undelivered lines of its current chunk; a pass consumes all there is |
| `FileTailRuns.NeverReplaced` | ulpf/ingest/file_tail.py:167-213 | over a file that only grows nothing is ever joined, and unless `start_at_end` is set all of it is due |
| `FileTailRuns.PassDelivers` | ulpf/ingest/file_tail.py:167-213 | from any state: what a pass delivers and holds after a rotation, a truncation, a start with or without a saved offset of this inode |
| `FileTailRuns.RotatedOnce` | ulpf/ingest/file_tail.py:10-12 | once the path holds a file of an inode that neither tailer nor offsets file knows, its lines are delivered exactly once each after those before it, whatever growth, passes, restarts and cancellations follow |
| `FileTailRuns.RotatedMissesNothing` | ulpf/ingest/file_tail.py:10-12 | and with crashes none of them is missed |
| `FileTailRuns.TruncatedOnce` | ulpf/ingest/file_tail.py:10-12 | a running tailer that finds the file shorter than what it has read delivers the lines of the new content exactly once each, without the old fragment |
| `FileTailRuns.FirstPassExactly` | ulpf/ingest/file_tail.py:173-193 | the first pass over replaced content joins the old fragment to it if and only if it has grown again to the position read, under the same inode, while a fragment was held; and when it reads it from its first byte |
| `FileTailRuns.RegrownIsJoined` | ulpf/ingest/file_tail.py:183-184 | a run that delivers a line which never was, and misses one |
| `FileTailRuns.TruncatedRestartSkips` | ulpf/ingest/file_tail.py:188-193 | a run in which a restart after a truncation never delivers the new content |
| `FileTailRuns.CancelLosesLines` | ulpf/ingest/file_tail.py:123-130 | a run in which a cancelled pass loses a line for good |
| `FileTailRuns.CrashMissesNothing` | ulpf/ingest/file_tail.py:115-251 | with crashes before the offset is saved, and no cancellation of that kind, lines may repeat but none of earlier contents, and none after the point where reading of the present one began, is missed |
| `FileTailRuns.GrowingMissesNothing` | ulpf/ingest/file_tail.py:115-251 | so over one growing file read from its start no line is missed |
| `FileTailRuns.OriginStays` | ulpf/ingest/file_tail.py:188-193 | once an offset in the present content is saved that point never moves, whatever happens to the tailer |
| `FileTailRuns.CrashAtEndLosesLine` | ulpf/ingest/file_tail.py:157-165 | before that it can: `watch` saves nothing after a scan without lines, so a crash then loses a line that was written after the tailer started |
| `FileTailRuns.StartAtEndExactly` | ulpf/ingest/file_tail.py:188-193 | what follows the end of a file splits into the lines the file gains, whatever follows, if and only if the file does not stop within a line |
| `FileTailRuns.StartedAtEnd` | ulpf/ingest/file_tail.py:188-213 | a tailer started at the end delivers just the lines of what follows, taken by itself |
| `SyslogEnvelope.ReadQuoted` | ulpf/parse/syslog_envelope.py:194-207 | value up to the closing quote with escapes resolved, or up to the end of the text |
| `SyslogEnvelope.ScanParams` | ulpf/parse/syslog_envelope.py:180-188 | parameters of one element; a later name replaces an earlier one |
| `SyslogEnvelope.ScanSdElement` | ulpf/parse/syslog_envelope.py:172-191 | one element from its bracket on, always moving forward |
| `SyslogEnvelope.ParseStructuredData` | ulpf/parse/syslog_envelope.py:150-169 | nil, absent or bracketed elements, the raw field and where MSG starts |
| `SyslogEnvelope.MalformedIsMessage` | ulpf/parse/syslog_envelope.py:156-159 | a field that is neither nil nor bracketed is no structured data, and all of it is MSG |
| `SyslogEnvelope.SplitPosition` | ulpf/parse/syslog_envelope.py:118-147 | the position of MSG is computed from the lengths of the five fields before it |
| `SyslogEnvelope.SplitIsReversible` | ulpf/parse/syslog_envelope.py:73-97 | on every input with a recognised header, raw header and message concatenate to the input; otherwise the message is the input |
| `SyslogEnvelope.FormatExactly` | ulpf/parse/syslog_envelope.py:73-110 | on every input: no PRI if and only if it does not start with one to three digits in angle brackets; RFC 5424 if and only if a version and at least five more spaces follow; else RFC 3164 if its expressions match; else all after the PRI is the message; PRI, facility, severity and version are the numbers read |
| `SyslogEnvelope.PartsCount` | ulpf/parse/syslog_envelope.py:121-123 | splitting gives one part more than there are spaces, and at most six |
| `SyslogEnvelope.HeaderIsItsFields` | ulpf/parse/syslog_envelope.py:118-147 | the cut is where it belongs: the raw header is PRI and version, the five fields with their spaces, the raw structured data and at most one space |
| `SyslogEnvelope.NilReadsBack` | ulpf/parse/syslog_envelope.py:113-115 | a header field printed with the NILVALUE for an absent one reads back if and only if it is not that text itself |
| `SyslogEnvelope.QuotedInverse` | ulpf/parse/syslog_envelope.py:194-207 | reading inverts the escaping of section 6.3.3 of RFC 5424 |
| `SyslogEnvelope.QuotedReads` | ulpf/parse/syslog_envelope.py:194-207 | any quoted value, ended by its quote or by the end of the text: a backslash stands for the byte after it, whichever that is, and alone at the end for itself |
| `SyslogEnvelope.SdInverse` | ulpf/parse/syslog_envelope.py:150-191 | printed structured data parses back, with the raw field and MSG intact |
| `SyslogEnvelope.PrintedParsesBack` | ulpf/parse/syslog_envelope.py:73-147 | a message printed under sections 6.2 and 6.3 of RFC 5424 parses to the same PRI, fields, absent ones included, parameters and MSG bytes |
| `SyslogEnvelope.PrintedParamsParseBack` | ulpf/parse/syslog_envelope.py:172-191 | with distinct ids and names each parameter is found nested under its id |
| `CidrTrie.Trie.Insert` | ulpf/enrich/_cidr.py:45-55 | the linked nodes keep refining the list of insertions, with the new one at its end |
| `CidrTrie.Trie.Search` | ulpf/enrich/_cidr.py:57-68 | returns the longest match over the list of insertions |
| `CidrTrie.CidrTrie.constructor` | ulpf/enrich/_cidr.py:74-80 | builds from the given networks, in order |
| `CidrTrie.CidrTrie.Insert` | ulpf/enrich/_cidr.py:82-86 | adds to the trie of its family, counts it, and leaves the other family alone |
| `CidrTrie.CidrTrie.Lookup` | ulpf/enrich/_cidr.py:92-96 | longest match at 32 or 128 bits among the networks of the family |
| `CidrTrie.PathIsPrefix` | ulpf/enrich/_cidr.py:49 | walking the same first len bits is the same as key >> (W - len) being equal |
| `CidrTrie.LongestMatchMeaning` | ulpf/enrich/_cidr.py:57-68 | a result is the value of the longest stored prefix; none means that no prefix is stored |
| `CidrTrie.InsertElsewhere` | ulpf/enrich/_cidr.py:45-55 | an insertion changes no key outside its prefix |
| `CidrTrie.InsertFound` | ulpf/enrich/_cidr.py:45-68 | an insertion is found by every key under it with nothing longer stored |
| `CidrTrie.InsertReplaces` | ulpf/enrich/_cidr.py:45-55 | at its own prefix an insertion replaces what was stored, by nothing when the value is None |
| `ClickHouseSink.StepKeeps` | ulpf/sinks/clickhouse_sink.py:122-230 | each step, cancelled or raising drains and closes, a dead timer and lost replies included, keeps the batch in flight at the front of the buffer and conserves every row |
| `ClickHouseRuns.NoRowDropped` | ulpf/sinks/clickhouse_sink.py:17-28 | at every point of every interleaving each accepted row is in server, spool or buffer, except rows still buffered when the process ended; those were written after close had spooled or left behind by a close that was cut off |
| `ClickHouseRuns.ClosedHasDelivered` | ulpf/sinks/clickhouse_sink.py:122-148 | after a run without a late write and without an end after a cut-off close, once close has returned, server and spool hold exactly the accepted rows plus surplus copies |
| `ClickHouseRuns.CleanRestartResumes` | ulpf/sinks/clickhouse_sink.py:325-335 | after such a close the restarted sink buffers exactly the spooled rows, and server and buffer hold all that was accepted |
| `ClickHouseRuns.NothingLost` | ulpf/sinks/clickhouse_sink.py:17-28 | in every run without a write between the spooling and the end of close, and without an end of the process after a close that was cut off, nothing is ever lost |
| `ClickHouseRuns.WriteLostExactly` | ulpf/sinks/clickhouse_sink.py:122-160 | in any state reached by such a run that takes writes, some continuation that begins with a write loses a row, with no later write of that kind and no later close cut off, if and only if close has spooled and not returned, or was cut off |
| `ClickHouseRuns.WindowLoses` | ulpf/sinks/clickhouse_sink.py:133-148 | every state between the spooling and the end of close has a continuation that loses the row written there |
| `ClickHouseRuns.CutOffLoses` | ulpf/sinks/clickhouse_sink.py:122-148 | once a close was cut off, the end of the process loses all that is buffered, whenever it was written |
| `ClickHouseRuns.CancelledCloseLoses` | ulpf/sinks/clickhouse_sink.py:133-136 | a run in which a row is lost that was written before a close that is cancelled |
| `ClickHouseRuns.DeadTimerLoses` | ulpf/sinks/clickhouse_sink.py:127-131 | one in which the timer has died and close raises before it drains or spools |
| `ClickHouseRuns.DeadTimerNeverCloses` | ulpf/sinks/clickhouse_sink.py:127-131 | once the timer has died, no close gets as far as draining or spooling before the process ends |
| `ClickHouseRuns.LateWriteCanBeLost` | ulpf/sinks/clickhouse_sink.py:146-148 | a run in which a row written while the client is being closed is accepted and gone |
| `ClickHouseSink.ReloadRows` | ulpf/sinks/clickhouse_sink.py:325-335 | reloading moves exactly the spooled multiset into the buffer |
| `ClickHouseSink.ReloadSpool` | ulpf/sinks/clickhouse_sink.py:325-335 | the loop puts each file in front of the buffer and leaves no file |
| `ClickHouseSink.ReloadPutsInFront` | ulpf/sinks/clickhouse_sink.py:325-335 | the file reloaded last comes first |
| `ClickHouseProgress.BatchIsFront` | ulpf/sinks/clickhouse_sink.py:192-202 | a drain posts the first rows of the buffer, as many as a batch holds |
| `ClickHouseProgress.RetriesExactly` | ulpf/sinks/clickhouse_sink.py:204-230 | a batch that keeps failing is posted max_retries + 1 times and then stays in the buffer |
| `ClickHouseProgress.RejectedIsSpooled` | ulpf/sinks/clickhouse_sink.py:216-221 | a batch rejected for good leaves the buffer for the spool |
| `ClickHouseProgress.FlushDelivers` | ulpf/sinks/clickhouse_sink.py:166-173 | with a server that answers, one drain for each batch delivers the whole buffer, each row once |
| `ClickHouseProgress.CloseSpools` | ulpf/sinks/clickhouse_sink.py:122-148 | with no server, a close, also one after another was cut off, makes max_retries + 2 drains of max_retries + 1 attempts, then writes all rows to one spool file and leaves nothing in memory |
| `Pipeline.StepKeeps` | ulpf/core/pipeline.py:312-397 | each step keeps the accounting, the unfinished count, the sentinel count and the drain mark |
| `Pipeline.EveryEventAccounted` | ulpf/core/pipeline.py:368-397 | in every reachable state each submission is in exactly one place, and the unfinished count is queued plus in-work items |
| `PipelineOrder.FirstInFirstOut` | ulpf/core/pipeline.py:339-348 | what workers have taken and what is queued is what was put, in order, and a bounded queue stays within its bound |
| `PipelineOrder.BusySince` | ulpf/core/pipeline.py:368-384 | a worker that holds an event took it from the front of the queue and has passed it on once for each stage behind it |
| `PipelineOrder.LeavesAfter` | ulpf/core/pipeline.py:368-397 | an event is finished if and only if every stage has passed it on, and a dead letter names the original event and the stage that raised |
| `Pipeline.FailuresSorted` | ulpf/core/pipeline.py:386-397 | dead letters carry raw originals of real stages; only non-raw events are discarded |
| `Pipeline.StopDrains` | ulpf/core/pipeline.py:322-337 | when stop returns, everything enqueued before it began is handled and each worker has taken exactly one sentinel |
| `PipelineOrder.JoinNeverHangs` | ulpf/core/pipeline.py:332 | in every reachable state the join is released when nothing is unfinished |
| `PipelineOrder.IdleStops` | ulpf/core/pipeline.py:322-337 | an idle pool stops with one sentinel for each worker, whatever the capacity of its queue |
| `Pipeline.FlushStages` | ulpf/core/pipeline.py:399-418 | each distinct stage object with a flush is flushed exactly once, by identity |
| `Pipeline.AcknowledgedExactly` | ulpf/core/pipeline.py:352-366 | acknowledged but not handled if and only if interrupted in the stages with the acknowledgement taking effect; handled but not acknowledged if and only if the acknowledgement alone was cut off |
| `Pipeline.BothFailuresHappen` | ulpf/core/pipeline.py:352-366 | a run of each kind |
| `Compaction.RowsPerFile` | ulpf/sinks/compaction.py:240-245 | the greatest number of rows that fits the target at the average row size, and at least one |
| `CompactionSize.RowsPerFileFits` | ulpf/sinks/compaction.py:240-245 | in whole numbers: that many rows, of the average size but at least a byte, fit the target unless it is one, and one more does not |
| `Compaction.CutSlices` | ulpf/sinks/compaction.py:248-258 | consecutive non-empty slices of bounded size that concatenate to the table |
| `Compaction.SlicesPartition` | ulpf/sinks/compaction.py:248-258 | slicing loses and reorders no row |
| `Compaction.SameRows` | ulpf/sinks/compaction.py:146-192 | the order in which files are listed does not change the merged multiset |
| `Compaction.StepKeeps` | ulpf/sinks/compaction.py:146-192 | write-tmp, rename, unlink, crash and new files each keep the balance of rows |
| `Compaction.NoRowLost` | ulpf/sinks/compaction.py:146-192 | at every step of every run each row is visible at least as often as it was added |
| `Compaction.VisibleExactly` | ulpf/sinks/compaction.py:146-192 | at every step of every run, the visible rows are exactly those added if and only if the running pass has not renamed an output with an input that holds a row still to unlink, and no pass died in that state |
| `Compaction.CrashDuplicates` | ulpf/sinks/compaction.py:146-192 | a run in which a pass dies after its rename and both rows are visible twice |
| `CompactionPass.PassReplacesFiles` | ulpf/sinks/compaction.py:146-192 | an undisturbed pass over at least the minimum of files leaves just its outputs, whose rows in order are those of the inputs as listed |
| `Compaction.RestIsExact` | ulpf/sinks/compaction.py:146-192 | between passes the visible multiset is what was added plus what dead passes duplicated |
| `Drift.TemplateDriftDetector.UpdateWindow` | ulpf/ml/drift.py:164-212 | a window of positive length scores and folds every known or new key once; any other length raises and changes nothing |
| `Drift.TemplateDriftDetector.Evaluate` | ulpf/ml/drift.py:184-209 | the signal and the next data of one key, leaving all others alone |
| `Drift.ScoreIsZTest` | ulpf/ml/drift.py:267-287 | with the square root the code takes: a count deviates if and only if the expected one is positive and the absolute z-score reaches the threshold, and is a spike if and only if z is positive |
| `Drift.SignalSays` | ulpf/ml/drift.py:184-287 | when a signal is raised, and that it reports the baseline before the window, the rate, count and expectation of the window, the direction, and the latest text and samples |
| `Drift.WindowFolds` | ulpf/ml/drift.py:190-209 | a window leaves the first rate, the frozen baseline, or alpha times the rate plus (1 - alpha) times the baseline, and one more window |
| `Drift.WarmsUp` | ulpf/ml/drift.py:190-200 | a template is not judged in the warm-up windows after its first occurrence, and is from then on |
| `Drift.TemplateDriftDetector.TakeSnapshot` | ulpf/ml/drift.py:218-238 | what is persisted has the same baselines and, restored, the same data for each of them |
| `Drift.TemplateDriftDetector.FromSnapshot` | ulpf/ml/drift.py:240-254 | the detector restored from any persisted state would persist it again unchanged |
| `Drift.BaselineBetweenRates` | ulpf/ml/drift.py:190-209 | every baseline lies between the least and the greatest rate seen since the template first occurred |
| `Drift.SilenceFires` | ulpf/ml/drift.py:258-287 | a silent window fires if and only if the expected count is positive and at least the squared threshold, and then as a drop |
| `Drift.OutageStaysFlagged` | ulpf/ml/drift.py:198-209 | with freezing on, an outage fires "drop" in each of its windows if and only if the count expected before it reaches the squared threshold in each, and then the baseline stays put |
| `Drift.QuietOutageUnnoticed` | ulpf/ml/drift.py:198-209 | an outage below the squared threshold in every window is never flagged, freezing or not, and scales the baseline by (1 - alpha)^n |
| `Drift.WithoutFreezingDecays` | ulpf/ml/drift.py:205-209 | with freezing off, n silent windows scale the baseline by (1 - alpha)^n |
| `Drift.RestoredBehavesAlike` | ulpf/ml/drift.py:218-254 | a restored detector reports the same signals as the original in every future window |
| `Histogram.HistogramQuantile` | bench/replay.py:355-373 | none without observations; otherwise the linear interpolation, written out, in the first bucket that reaches q times the total, or the last bound |
| `Histogram.MonotoneExactlyWhenAboveZero` | bench/replay.py:355-373 | the quantile is monotone on [0, 1] if and only if the first bucket is empty or its bound is not negative |
| `Histogram.EstimateInBucket` | bench/replay.py:364-372 | the estimate stays between the bounds of its bucket, zero bounding the first one that holds observations |
| `Histogram.QuantileInTrueBucket` | bench/replay.py:355-373 | for q > 0 in a finite bucket, the estimate and the observation of rank ceil(q n) lie in the same bucket |
| `Histogram.DiffBuckets` | bench/replay.py:347-352 | per-bound increase, never negative, bounds kept |
| `Histogram.DiffCounts` | bench/replay.py:347-352 | the increase at the same bound, from zero where the bound is new, and zero instead of a decrease |
| `Histogram.DiffIsHistogramBetween` | bench/replay.py:347-352 | differencing two scrapes gives the histogram of the observations in between |
| `NestedRecord.ReadsBack` | ulpf/normalize/mapper.py:265-275 | a nested write reads back its value |
| `NestedRecord.ReadsElsewhere` | ulpf/normalize/mapper.py:265-275 | and changes no path that is neither a prefix nor an extension of its own |
| `NestedRecord.WriteReadsBack` | ulpf/normalize/mapper.py:265-275 | in a list of writes each reads back unless a later one is at a prefix or extension |
| `NestedRecord.ShowsExactly` | ulpf/normalize/mapper.py:265-275 | the finished record depends on a written value if and only if no later write is at a prefix of its path or, for a scalar, at an extension |
| `Mapper.MapFields` | ulpf/normalize/mapper.py:83-94 | the loop builds record and consumed set, and stops at the first failing mapping with the record built so far |
| `Mapper.ToOcsf` | ulpf/normalize/mapper.py:59-101 | all writes in order, or the error of the first failing mapping with the partial record |
| `Mapper.ConsumedIsRead` | ulpf/normalize/mapper.py:131-157 | a key is consumed if and only if the activity or some mapping reads it, and then it was supplied |
| `Mapper.StampsHold` | ulpf/normalize/mapper.py:96-98 | metadata.uid, log_hash and version hold the stamped values whatever was mapped |
| `Mapper.ReadOrKept` | ulpf/normalize/mapper.py:170-184 | under keep_all each field is read by a rule or sits verbatim in unmapped, never both; a keep-list likewise for its names |
| `Mapper.LostExactly` | ulpf/normalize/mapper.py:25-27 | a field appears nowhere in the record if and only if it is not copied to unmapped and every rule that reads it, the activity included, writes nothing, or only its default, or is overwritten |
| `Mapper.UnmatchedActivityLoses` | ulpf/normalize/mapper.py:131-141 | an activity field that no mapping reads is lost whenever the activity table lacks its value, default or not |
| `Mapper.UnmatchedTablesLose` | ulpf/normalize/mapper.py:143-168 | and so does any field all of whose readers are tables that lack its value |
| `Mapper.SameOutcomesOneRecord` | ulpf/normalize/mapper.py:59-101 | two values of a field that its rules read with the same outcome give one and the same record |
| `Mapper.ActionIsLost` | ulpf/normalize/mapper.py:131-141 | such an input, under keep_all |
| `Mapper.DefaultHidesAction` | ulpf/normalize/mapper.py:131-141 | any two values that the table lacks, with a default: one record for both, and neither in it |
| `Mapper.MappedReadsBack` | ulpf/normalize/mapper.py:84-100 | a mapped target reads back its value unless a later write is at a prefix or extension of it |
| `MapperValues.TargetHolds` | ulpf/normalize/mapper.py:143-168 | the record holds at a target what its rule makes of the first supplied source, or of all supplied ones joined: the translation, the default where the table lacks it, or the coerced value; and the default when none is supplied |
| `MapperValues.JoinedInOrder` | ulpf/normalize/mapper.py:195-199 | joined sources come in listed order with the separator between them |
| `MapperValues.MappingFails` | ulpf/normalize/mapper.py:143-168 | a mapping fails if and only if its value cannot be coerced, or it is required and comes to nothing |
| `MapperValues.ClassHolds` | ulpf/normalize/mapper.py:76-82 | unless mapped over, the record holds class, category, activity, and as type a hundred times the class plus the activity |
| `SharedRecord.SetBelow` | ulpf/normalize/mapper.py:265-275 | in place: an existing dictionary is written to, anything else is replaced by a new one |
| `SharedRecord.TwoEvents` | ulpf/normalize/mapper.py:72-98 | the uid of an earlier record survives a later event if and only if no dictionary is the constant at metadata, or both have one uid |

## Left out

- Foreign cryptography: SHA-256, Ed25519, PEM and key files; see the parameters described above. `_as_hash` and its type errors.
- Encodings: JSON, hex, gzip, SQLite, Parquet and Arrow; a ledger line, an index row, a bronze record or a part file is a value.
- I/O failures other than those named: a ledger or index write that fails after the stage cleared its pending batch, a dead-letter write that raises in shared-queue mode, a torn ledger line.
- `ClickHouseSink`, `Pipeline` and `Compaction` are modelled on values: the buffer, queue and directory are components of a state, not heap objects, so aliasing is not captured.
- `Pipeline.StopDrains`: does not cover submits that were still blocked on a full queue when stop began; the source makes no claim for them.
- `Pipeline.FlushStages`: does not model a flush that raises.
- The queue's timeout and `PutOutcome` policies, and the Kafka buffers behind the partition-aware mode beyond get and ack.
- ClickHouse table creation, backoff times, metrics and the degraded flag; hard process kills. One `close` at a time, and `start` with its timer; spool files are written whole or not at all.
- `Compaction.RowsPerFile`: real division instead of floating point. Schema promotion when tables are merged; rows are opaque.
- `FileTailRuns.TailExactlyOnce`: bytes of a replaced file that no pass had read are gone, and are not counted as due; runs in which a pass joins an old fragment to new content are out, see `FirstPassExactly`. One path per tailer; a negative read size, which reads all at once, is out.
- `FileTailRuns.CrashMissesNothing`: from the point where reading began; with `start_at_end` and no offset saved, that is where the last start found the end of the file. Crashes happen between deliveries; a half-written offsets file is out. A line whose callback raises counts as delivered, since the tailer goes on.
- RFC 3164 headers: the two regular expressions are an abstract matcher that says where MSG begins. Facility and severity names are table lookups on the numbers modelled.
- `SyslogEnvelope.PrintedParsesBack`: the priority of a printed message has at most three digits and the version too, as the parser's patterns demand.
- Drift: exact reals; rounding of reported values, the sorting of signals, `detect` and its catalog. The square root in the score is replaced by comparing squares.
- Histogram: exact reals and distinct increasing bounds, so the sort in the difference is the identity; Prometheus text parsing.
- Mapper: records are values, so a dictionary given as a constant is not shared between events; `SharedRecord` shows what sharing does at the constant `metadata`, not for dictionaries given as defaults or in translation tables. Coercions and `str` are parameters. The order of keys in `unmapped` is not modelled.
- Address parsing in `CidrTrie.lookup`, and networks of unequal version in one family.
- Everything outside these files: listeners and sockets, enrichment, OCSF class tables, the template store, the OpenSearch and Splunk sinks, the API and the user interface.
