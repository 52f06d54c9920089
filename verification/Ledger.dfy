/** The hash-chained, signed ledger of ulpf/integrity/ledger.py.

    A file is the sequence of its non-blank lines. A line is either a JSON object with all the
    required fields or junk; `FromJson` also applies the length checks that make a well-typed
    line malformed. */
module Ledger {
  import opened Core
  import Merkle

  const GENESIS_ROOT: Digest := Zeros(HASH_LEN)
  const SIG_LEN := 64

  datatype Entry = Entry(
    seqNo: int,
    batchRoot: Bytes,
    prevChainedRoot: Bytes,
    chainedRoot: Bytes,
    leafCount: int,
    firstEventUid: Option<string>,
    lastEventUid: Option<string>,
    sealedAtNs: int,
    signature: Bytes)

  datatype Line = Json(entry: Entry) | Junk

  type Verify = (Bytes, Bytes) -> bool

  /** A private key: how it signs, and the verifier of its public half. */
  datatype Signer = Signer(sign: Bytes -> Bytes, verify: Verify)

  datatype LedgerError = ReadOnly

  datatype Fault = Unparseable | WrongSeq | BrokenLink | WrongChainedRoot | NoVerifier | BadSignature

  datatype Checked = Checked(index: nat, entry: Option<Entry>, fault: Option<Fault>)

  function FromJson(line: Line): Option<Entry> {
    if line.Json?
      && |line.entry.batchRoot| == HASH_LEN
      && |line.entry.prevChainedRoot| == HASH_LEN
      && |line.entry.chainedRoot| == HASH_LEN
      && |line.entry.signature| == SIG_LEN
    then Some(line.entry) else None
  }

  function ChainRoots(h: Hash, prev: Bytes, batchRoot: Bytes): Digest {
    h(prev + batchRoot)
  }

  function CheckLine(h: Hash, verifier: Option<Verify>, index: nat, line: Line, prev: Bytes): Checked {
    match FromJson(line)
    case None => Checked(index, None, Some(Unparseable))
    case Some(entry) =>
      Checked(index, Some(entry),
        if entry.seqNo != index then Some(WrongSeq)
        else if entry.prevChainedRoot != prev then Some(BrokenLink)
        else if ChainRoots(h, entry.prevChainedRoot, entry.batchRoot) != entry.chainedRoot then Some(WrongChainedRoot)
        else if verifier.None? then Some(NoVerifier)
        else if !verifier.value(entry.chainedRoot, entry.signature) then Some(BadSignature)
        else None)
  }

  /** The entry `append_batch` builds for `batchRoot` on top of a given tail. */
  function SealEntry(h: Hash, signer: Signer, seqNo: int, prev: Bytes, batchRoot: Bytes, count: nat,
                     uids: seq<string>, now: int): Entry
  {
    Entry(seqNo, batchRoot, prev, ChainRoots(h, prev, batchRoot), count,
          if uids == [] then None else Some(uids[0]),
          if uids == [] then None else Some(uids[|uids| - 1]),
          now, signer.sign(ChainRoots(h, prev, batchRoot)))
  }

  function NewEntry(h: Hash, signer: Signer, seqNo: int, prev: Bytes, leaves: seq<Bytes>,
                    uids: seq<string>, now: int): Entry
  {
    SealEntry(h, signer, seqNo, prev, Merkle.Root(h, leaves), |leaves|, uids, now)
  }

  // ----- what a sound file is, position by position -----

  /** The chained root line i has to link to. */
  function PrevRoot(lines: seq<Line>, i: nat): Bytes
    requires i <= |lines|
  {
    if i == 0 || FromJson(lines[i - 1]).None? then GENESIS_ROOT
    else FromJson(lines[i - 1]).value.chainedRoot
  }

  ghost predicate EntrySound(h: Hash, verifier: Option<Verify>, entry: Entry, i: nat, prev: Bytes) {
    && entry.seqNo == i
    && entry.prevChainedRoot == prev
    && entry.chainedRoot == h(entry.prevChainedRoot + entry.batchRoot)
    && verifier.Some?
    && verifier.value(entry.chainedRoot, entry.signature)
  }

  ghost predicate LineSound(h: Hash, verifier: Option<Verify>, lines: seq<Line>, i: nat)
    requires i < |lines|
  {
    FromJson(lines[i]).Some? && EntrySound(h, verifier, FromJson(lines[i]).value, i, PrevRoot(lines, i))
  }

  ghost predicate Intact(h: Hash, verifier: Option<Verify>, lines: seq<Line>) {
    forall i :: 0 <= i < |lines| ==> LineSound(h, verifier, lines, i)
  }

  /** Number of leading lines that parse. */
  function Readable(lines: seq<Line>): (n: nat)
    ensures n <= |lines|
    ensures forall i :: 0 <= i < n ==> FromJson(lines[i]).Some?
    ensures n < |lines| ==> FromJson(lines[n]).None?
  {
    if lines == [] || FromJson(lines[0]).None? then 0 else 1 + Readable(lines[1..])
  }

  /** The first n lines parse, and no more of them do. */
  ghost predicate IsReadable(lines: seq<Line>, n: int) {
    && 0 <= n <= |lines|
    && (forall i :: 0 <= i < n ==> FromJson(lines[i]).Some?)
    && (n < |lines| ==> FromJson(lines[n]).None?)
  }

  /** What reopening a file recovers: next sequence number and last chained root, both taken
      from the last line before the first unreadable one. */
  function TailState(lines: seq<Line>): (int, Bytes) {
    var n := Readable(lines);
    if n == 0 then (0, GENESIS_ROOT)
    else (FromJson(lines[n - 1]).value.seqNo + 1, FromJson(lines[n - 1]).value.chainedRoot)
  }

  /** `item` is the verdict on line k. */
  ghost predicate IsVerdict(h: Hash, verifier: Option<Verify>, lines: seq<Line>, k: nat, item: Checked)
    requires k < |lines|
  {
    item == CheckLine(h, verifier, k, lines[k], PrevRoot(lines, k))
  }

  lemma VerdictMeansSound(h: Hash, verifier: Option<Verify>, lines: seq<Line>, k: nat, item: Checked)
    requires k < |lines| && IsVerdict(h, verifier, lines, k, item)
    ensures item.index == k
    ensures item.fault.None? == LineSound(h, verifier, lines, k)
    ensures item.fault.None? ==> item.entry == FromJson(lines[k])
  {}

  /** A line parses exactly when it is an object whose roots are digests and whose signature has the length
      of one. */
  lemma ParsesExactly(line: Line)
    ensures FromJson(line).Some? <==>
      && line.Json? && |line.entry.signature| == 64
      && |line.entry.batchRoot| == |line.entry.prevChainedRoot| == |line.entry.chainedRoot| == 32
    ensures FromJson(line).Some? ==> FromJson(line).value == line.entry
  {}

  /** The fault reported is the first check that fails, in the order of the source. */
  lemma FaultIsFirst(h: Hash, verifier: Option<Verify>, lines: seq<Line>, k: nat, item: Checked)
    requires k < |lines| && IsVerdict(h, verifier, lines, k, item)
    ensures item.fault == Some(Unparseable) <==> FromJson(lines[k]).None?
    ensures FromJson(lines[k]).Some? ==>
      var entry := FromJson(lines[k]).value;
      var chained := entry.chainedRoot == h(entry.prevChainedRoot + entry.batchRoot);
      var numbered, linked := entry.seqNo == k, entry.prevChainedRoot == PrevRoot(lines, k);
      && (item.fault == Some(WrongSeq) <==> !numbered)
      && (item.fault == Some(BrokenLink) <==> numbered && !linked)
      && (item.fault == Some(WrongChainedRoot) <==> numbered && linked && !chained)
      && (item.fault == Some(NoVerifier) <==> numbered && linked && chained && verifier.None?)
      && (item.fault == Some(BadSignature) <==>
           numbered && linked && chained && verifier.Some? && !verifier.value(entry.chainedRoot, entry.signature))
      && item.entry == Some(entry)
  {}

  class LedgerFile {
    var lines: seq<Line>

    constructor ()
      ensures lines == []
    {
      lines := [];
    }
  }

  class IntegrityLedger {
    const file: LedgerFile
    const hash: Hash
    const signer: Option<Signer>
    const verifier: Option<Verify>
    var nextSeq: int
    var prevChainedRoot: Bytes

    /** Opens the file and reads its tail state. */
    constructor (file: LedgerFile, hash: Hash, signer: Option<Signer>, verifier: Option<Verify>)
      ensures this.file == file && this.hash == hash && this.signer == signer
      ensures this.verifier == if verifier.None? && signer.Some? then Some(signer.value.verify) else verifier
      ensures (nextSeq, prevChainedRoot) == TailState(file.lines)
      ensures forall n :: IsReadable(file.lines, n) ==>
        && (n == 0 ==> nextSeq == 0 && prevChainedRoot == GENESIS_ROOT)
        && (n > 0 ==>
             && nextSeq == FromJson(file.lines[n - 1]).value.seqNo + 1
             && prevChainedRoot == FromJson(file.lines[n - 1]).value.chainedRoot)
    {
      this.file := file;
      this.hash := hash;
      this.signer := signer;
      this.verifier := if verifier.None? && signer.Some? then Some(signer.value.verify) else verifier;
      nextSeq := 0;
      prevChainedRoot := GENESIS_ROOT;
      new;
      var i := 0;
      while i < |file.lines|
        invariant 0 <= i <= Readable(file.lines)
        invariant i == 0 ==> nextSeq == 0 && prevChainedRoot == GENESIS_ROOT
        invariant i > 0 ==>
          && nextSeq == FromJson(file.lines[i - 1]).value.seqNo + 1
          && prevChainedRoot == FromJson(file.lines[i - 1]).value.chainedRoot
      {
        var parsed := FromJson(file.lines[i]);
        if parsed.None? {
          break;
        }
        nextSeq := parsed.value.seqNo + 1;
        prevChainedRoot := parsed.value.chainedRoot;
        i := i + 1;
      }
    }

    method AppendBatch(leaves: seq<Bytes>, uids: seq<string>, now: int)
      returns (r: Result<Entry, LedgerError>)
      modifies this, file
      ensures signer.None? ==>
        && r == Err(ReadOnly)
        && file.lines == old(file.lines)
        && nextSeq == old(nextSeq)
        && prevChainedRoot == old(prevChainedRoot)
      ensures signer.Some? ==>
        && r == Ok(NewEntry(hash, signer.value, old(nextSeq), old(prevChainedRoot), leaves, uids, now))
        && file.lines == old(file.lines) + [Json(r.value)]
        && nextSeq == old(nextSeq) + 1
        && prevChainedRoot == r.value.chainedRoot
      ensures r.Ok? ==>
        && r.value.seqNo == old(nextSeq) && r.value.prevChainedRoot == old(prevChainedRoot)
        && r.value.batchRoot == Merkle.Root(hash, leaves) && r.value.leafCount == |leaves|
        && r.value.chainedRoot == hash(old(prevChainedRoot) + r.value.batchRoot)
        && r.value.signature == signer.value.sign(r.value.chainedRoot)
        && r.value.sealedAtNs == now
        && (uids == [] ==> r.value.firstEventUid == None && r.value.lastEventUid == None)
        && (uids != [] ==>
             r.value.firstEventUid == Some(uids[0]) && r.value.lastEventUid == Some(uids[|uids| - 1]))
    {
      if signer.None? {
        return Err(ReadOnly);
      }
      var batchRoot := Merkle.MerkleRoot(hash, leaves);
      var prev := prevChainedRoot;
      var chainedRoot := ChainRoots(hash, prev, batchRoot);
      var entry := Entry(
        nextSeq, batchRoot, prev, chainedRoot, |leaves|,
        if uids == [] then None else Some(uids[0]),
        if uids == [] then None else Some(uids[|uids| - 1]),
        now, signer.value.sign(chainedRoot));
      file.lines := file.lines + [Json(entry)];
      prevChainedRoot := chainedRoot;
      nextSeq := nextSeq + 1;
      return Ok(entry);
    }

    /** One verdict per line, stopping after the first fault. */
    method IterChecked() returns (checked: seq<Checked>)
      ensures |checked| <= |file.lines|
      ensures forall k :: 0 <= k < |checked| ==> IsVerdict(hash, verifier, file.lines, k, checked[k])
      ensures forall k :: 0 <= k < |checked| - 1 ==> checked[k].fault.None?
      ensures |checked| < |file.lines| ==> checked != [] && checked[|checked| - 1].fault.Some?
    {
      hide CheckLine, EntrySound, FromJson;
      var prev: Bytes := GENESIS_ROOT;
      checked := [];
      for index := 0 to |file.lines|
        invariant |checked| == index
        invariant prev == PrevRoot(file.lines, index)
        invariant forall k :: 0 <= k < |checked| ==> IsVerdict(hash, verifier, file.lines, k, checked[k])
        invariant forall k :: 0 <= k < |checked| ==> checked[k].fault.None?
      {
        var item := CheckLine(hash, verifier, index, file.lines[index], prev);
        assert IsVerdict(hash, verifier, file.lines, index, item);
        VerdictMeansSound(hash, verifier, file.lines, index, item);
        checked := checked + [item];
        if item.fault.Some? {
          return;
        }
        prev := item.entry.value.chainedRoot;
      }
    }

    /** True exactly for intact files; otherwise the position of the first unsound line. */
    method VerifyChain() returns (ok: bool, brokenAt: Option<nat>)
      ensures ok <==> Intact(hash, verifier, file.lines)
      ensures ok ==> brokenAt == None
      ensures !ok ==>
        && brokenAt.Some? && brokenAt.value < |file.lines|
        && !LineSound(hash, verifier, file.lines, brokenAt.value)
        && forall k :: 0 <= k < brokenAt.value ==> LineSound(hash, verifier, file.lines, k)
    {
      var checked := IterChecked();
      for i := 0 to |checked|
        invariant forall k :: 0 <= k < i ==> checked[k].fault.None?
        invariant forall k :: 0 <= k < i ==> LineSound(hash, verifier, file.lines, k)
      {
        VerdictMeansSound(hash, verifier, file.lines, i, checked[i]);
        if checked[i].fault.Some? {
          return false, Some(checked[i].index);
        }
      }
      return true, None;
    }
  }

  // ----- appending -----

  /** On an intact file, reopening recovers exactly the position after the last line. */
  lemma IntactTail(h: Hash, verifier: Option<Verify>, lines: seq<Line>)
    requires Intact(h, verifier, lines)
    ensures TailState(lines) == (|lines|, PrevRoot(lines, |lines|))
  {
    forall i | 0 <= i < |lines|
      ensures FromJson(lines[i]).Some?
    {
      assert LineSound(h, verifier, lines, i);
    }
    if lines != [] {
      assert LineSound(h, verifier, lines, |lines| - 1);
    }
  }

  /** Appending to an intact file keeps it intact exactly when the batch root is a digest; the
      only batches for which it is not are single leaves that are not 32 bytes long. */
  lemma AppendKeepsIntact(h: Hash, signer: Signer, lines: seq<Line>, leaves: seq<Bytes>,
                          uids: seq<string>, now: int)
    requires Intact(h, Some(signer.verify), lines)
    requires forall d :: |signer.sign(d)| == SIG_LEN && signer.verify(d, signer.sign(d))
    ensures var entry := NewEntry(h, signer, |lines|, PrevRoot(lines, |lines|), leaves, uids, now);
      Intact(h, Some(signer.verify), lines + [Json(entry)]) == (|leaves| != 1 || |leaves[0]| == HASH_LEN)
  {
    var prev := PrevRoot(lines, |lines|);
    var entry := NewEntry(h, signer, |lines|, prev, leaves, uids, now);
    var longer := lines + [Json(entry)];
    RootLength(h, leaves);
    assert |prev| == HASH_LEN by {
      if lines != [] {
        assert LineSound(h, Some(signer.verify), lines, |lines| - 1);
      }
    }
    assert longer[|lines|] == Json(entry);
    assert PrevRoot(longer, |lines|) == prev;
    forall i | 0 <= i < |lines|
      ensures LineSound(h, Some(signer.verify), longer, i)
    {
      assert LineSound(h, Some(signer.verify), lines, i);
      assert PrevRoot(longer, i) == PrevRoot(lines, i);
    }
    if |leaves| != 1 || |leaves[0]| == HASH_LEN {
      assert LineSound(h, Some(signer.verify), longer, |lines|);
    } else {
      assert !LineSound(h, Some(signer.verify), longer, |lines|);
    }
  }

  lemma {:induction false} RootLength(h: Hash, leaves: seq<Bytes>)
    ensures |Merkle.Root(h, leaves)| == if |leaves| == 1 then |leaves[0]| else HASH_LEN
    decreases |leaves|
  {
    if |leaves| > 1 {
      RootLength(h, Merkle.Up(h, leaves));
    }
  }

  // ----- authenticity -----

  /** The chained root after the first k batch roots. */
  function ChainRoot(h: Hash, roots: seq<Bytes>, k: nat): Digest
    requires k <= |roots|
  {
    if k == 0 then GENESIS_ROOT else h(ChainRoot(h, roots, k - 1) + roots[k - 1])
  }

  /** Every string hashed while the chain over `roots` was built. */
  function ChainHashed(h: Hash, roots: seq<Bytes>): set<Bytes> {
    set k | 0 <= k < |roots| :: ChainRoot(h, roots, k) + roots[k]
  }

  /** Every string hashed while `lines` is checked. */
  function LinesHashed(lines: seq<Line>): set<Bytes> {
    set i | 0 <= i < |lines| && FromJson(lines[i]).Some? ::
      FromJson(lines[i]).value.prevChainedRoot + FromJson(lines[i]).value.batchRoot
  }

  ghost predicate GenesisPreimage(h: Hash, inputs: set<Bytes>) {
    exists x :: x in inputs && h(x) == GENESIS_ROOT
  }

  /** Every signature in the file presented that verifies was made by the key for a chained root
      of the ledger over `roots`: the key signed nothing else, and nobody else can sign. */
  ghost predicate SignedOnly(h: Hash, verify: Verify, roots: seq<Bytes>, lines: seq<Line>) {
    forall i :: 0 <= i < |lines| && SignatureVerifies(verify, lines[i]) ==>
      IsChainRoot(h, roots, FromJson(lines[i]).value.chainedRoot)
  }

  predicate SignatureVerifies(verify: Verify, line: Line) {
    FromJson(line).Some? && verify(FromJson(line).value.chainedRoot, FromJson(line).value.signature)
  }

  ghost predicate IsChainRoot(h: Hash, roots: seq<Bytes>, d: Bytes) {
    exists k :: IsChainRootAt(h, roots, d, k)
  }

  ghost predicate IsChainRootAt(h: Hash, roots: seq<Bytes>, d: Bytes, k: nat) {
    1 <= k <= |roots| && d == ChainRoot(h, roots, k)
  }

  /** The string whose digest is chained root k + 1. */
  lemma ChainRootNext(h: Hash, roots: seq<Bytes>, k: nat) returns (input: Bytes)
    requires k < |roots|
    ensures input == ChainRoot(h, roots, k) + roots[k]
    ensures ChainRoot(h, roots, k + 1) == h(input) && input in ChainHashed(h, roots)
  {
    input := ChainRoot(h, roots, k) + roots[k];
  }

  lemma {:induction false} ChainRootsDiffer(h: Hash, roots: seq<Bytes>, j: nat, k: nat)
    requires j <= |roots| && k <= |roots| && ChainRoot(h, roots, j) == ChainRoot(h, roots, k)
    requires !Collision(h, ChainHashed(h, roots)) && !GenesisPreimage(h, ChainHashed(h, roots))
    ensures j == k
  {
    hide ChainRoot, ChainHashed;
    ChainRootStart(h, roots);
    if j > 0 && k > 0 {
      var x := ChainRootNext(h, roots, j - 1);
      var y := ChainRootNext(h, roots, k - 1);
      assert x == y;
      Merkle.SplitConcat(ChainRoot(h, roots, j - 1), roots[j - 1], ChainRoot(h, roots, k - 1), roots[k - 1]);
      ChainRootsDiffer(h, roots, j - 1, k - 1);
    } else if j > 0 {
      var x := ChainRootNext(h, roots, j - 1);
    } else if k > 0 {
      var y := ChainRootNext(h, roots, k - 1);
    }
  }

  lemma ChainRootStart(h: Hash, roots: seq<Bytes>)
    ensures ChainRoot(h, roots, 0) == GENESIS_ROOT
  {}

  /** Line i of an accepted file carries the roots that were written at position i. */
  ghost predicate LineAuthentic(h: Hash, roots: seq<Bytes>, lines: seq<Line>, i: nat) {
    && i < |roots| && i < |lines|
    && FromJson(lines[i]).Some?
    && var entry := FromJson(lines[i]).value;
    && entry.seqNo == i
    && entry.batchRoot == roots[i]
    && entry.prevChainedRoot == ChainRoot(h, roots, i)
    && entry.chainedRoot == ChainRoot(h, roots, i + 1)
  }

  lemma LineIsHashed(lines: seq<Line>, i: nat)
    requires i < |lines| && FromJson(lines[i]).Some?
    ensures FromJson(lines[i]).value.prevChainedRoot + FromJson(lines[i]).value.batchRoot in LinesHashed(lines)
  {}

  lemma NoneCollide(h: Hash, inputs: set<Bytes>, x: Bytes, y: Bytes)
    requires !Collision(h, inputs) && x in inputs && y in inputs && h(x) == h(y)
    ensures x == y
  {}

  lemma AcceptedIsChainRoot(h: Hash, verify: Verify, roots: seq<Bytes>, lines: seq<Line>, i: nat) returns (k: nat)
    requires i < |lines| && Intact(h, Some(verify), lines) && SignedOnly(h, verify, roots, lines)
    ensures LineSound(h, Some(verify), lines, i)
    ensures IsChainRootAt(h, roots, FromJson(lines[i]).value.chainedRoot, k)
  {
    hide ChainRoot;
    assert LineSound(h, Some(verify), lines, i);
    assert SignatureVerifies(verify, lines[i]);
    k :| IsChainRootAt(h, roots, FromJson(lines[i]).value.chainedRoot, k);
  }

  lemma {:induction false} AcceptedLineAuthentic(h: Hash, verify: Verify, roots: seq<Bytes>, lines: seq<Line>, i: nat)
    requires i < |lines| && Intact(h, Some(verify), lines) && SignedOnly(h, verify, roots, lines)
    requires !Collision(h, ChainHashed(h, roots) + LinesHashed(lines))
    requires !GenesisPreimage(h, ChainHashed(h, roots))
    ensures LineAuthentic(h, roots, lines, i)
  {
    hide ChainRoot, ChainHashed, LinesHashed, SignedOnly, Intact, Collision, GenesisPreimage;
    ChainRootStart(h, roots);
    if i > 0 {
      AcceptedLineAuthentic(h, verify, roots, lines, i - 1);
    }
    var k := AcceptedIsChainRoot(h, verify, roots, lines, i);
    var entry := FromJson(lines[i]).value;
    assert entry.prevChainedRoot == ChainRoot(h, roots, i);
    var mine := entry.prevChainedRoot + entry.batchRoot;
    var theirs := ChainRootNext(h, roots, k - 1);
    LineIsHashed(lines, i);
    NoneCollide(h, ChainHashed(h, roots) + LinesHashed(lines), mine, theirs);
    Merkle.SplitConcat(entry.prevChainedRoot, entry.batchRoot, ChainRoot(h, roots, k - 1), roots[k - 1]);
    if Collision(h, ChainHashed(h, roots)) {
      CollisionGrows(h, ChainHashed(h, roots), ChainHashed(h, roots) + LinesHashed(lines));
    }
    ChainRootsDiffer(h, roots, i, k - 1);
  }

  /** Any file the verifier accepts is, on its roots, a prefix of what was written -- or the two
      computations contain a hash collision or a preimage of the genesis root. */
  lemma LedgerAuthentic(h: Hash, verify: Verify, roots: seq<Bytes>, lines: seq<Line>)
    requires Intact(h, Some(verify), lines) && SignedOnly(h, verify, roots, lines)
    ensures (|lines| <= |roots| && forall i :: 0 <= i < |lines| ==> LineAuthentic(h, roots, lines, i))
         || Collision(h, ChainHashed(h, roots) + LinesHashed(lines))
         || GenesisPreimage(h, ChainHashed(h, roots))
  {
    if !Collision(h, ChainHashed(h, roots) + LinesHashed(lines)) && !GenesisPreimage(h, ChainHashed(h, roots)) {
      forall i | 0 <= i < |lines|
        ensures LineAuthentic(h, roots, lines, i)
      {
        AcceptedLineAuthentic(h, verify, roots, lines, i);
      }
      if lines != [] {
        assert LineAuthentic(h, roots, lines, |lines| - 1);
      }
    }
  }

  /** The batch roots recorded in a file. */
  function RecordedRoots(lines: seq<Line>): (roots: seq<Bytes>)
    requires forall i :: 0 <= i < |lines| ==> FromJson(lines[i]).Some?
    ensures |roots| == |lines|
    ensures forall i :: 0 <= i < |lines| ==> roots[i] == FromJson(lines[i]).value.batchRoot
  {
    if lines == [] then [] else [FromJson(lines[0]).value.batchRoot] + RecordedRoots(lines[1..])
  }

  /** The last chained root of an intact file commits to every batch root before it. */
  lemma {:induction false} HeadCommits(h: Hash, verifier: Option<Verify>, lines: seq<Line>, k: nat)
    requires Intact(h, verifier, lines) && k <= |lines|
    requires forall i :: 0 <= i < |lines| ==> FromJson(lines[i]).Some?
    ensures PrevRoot(lines, k) == ChainRoot(h, RecordedRoots(lines), k)
  {
    if k > 0 {
      HeadCommits(h, verifier, lines, k - 1);
      assert LineSound(h, verifier, lines, k - 1);
    }
  }

  /** An intact file, and any file cut off from it, meets the hypothesis of `LedgerAuthentic` for
      its own batch roots: the key signed exactly its chained roots. */
  lemma OwnFileSignedOnly(h: Hash, verify: Verify, lines: seq<Line>, n: nat)
    requires Intact(h, Some(verify), lines) && n <= |lines|
    ensures forall i :: 0 <= i < |lines| ==> FromJson(lines[i]).Some?
    ensures Intact(h, Some(verify), lines[..n])
    ensures SignedOnly(h, verify, RecordedRoots(lines), lines[..n])
  {
    forall i | 0 <= i < |lines|
      ensures FromJson(lines[i]).Some?
    {
      assert LineSound(h, Some(verify), lines, i);
    }
    forall i | 0 <= i < n
      ensures LineSound(h, Some(verify), lines[..n], i)
      ensures IsChainRoot(h, RecordedRoots(lines), FromJson(lines[..n][i]).value.chainedRoot)
    {
      assert LineSound(h, Some(verify), lines, i);
      assert PrevRoot(lines[..n], i) == PrevRoot(lines, i);
      HeadCommits(h, Some(verify), lines, i + 1);
      assert IsChainRootAt(h, RecordedRoots(lines), FromJson(lines[..n][i]).value.chainedRoot, i + 1);
    }
  }

  lemma {:induction false} ChainBinds(h: Hash, a: seq<Bytes>, b: seq<Bytes>, n: nat)
    requires n <= |a| && n <= |b| && AllDigests(a) && AllDigests(b)
    requires ChainRoot(h, a, n) == ChainRoot(h, b, n)
    ensures a[..n] == b[..n] || Collision(h, ChainHashed(h, a) + ChainHashed(h, b))
  {
    hide ChainRoot, ChainHashed;
    if n > 0 && !Collision(h, ChainHashed(h, a) + ChainHashed(h, b)) {
      var x := ChainRootNext(h, a, n - 1);
      var y := ChainRootNext(h, b, n - 1);
      assert x == y;
      Merkle.SplitConcat(ChainRoot(h, a, n - 1), a[n - 1], ChainRoot(h, b, n - 1), b[n - 1]);
      ChainBinds(h, a, b, n - 1);
      assert a[..n] == a[..n - 1] + [a[n - 1]] && b[..n] == b[..n - 1] + [b[n - 1]];
    }
  }

  lemma RootsAreDigests(lines: seq<Line>)
    requires forall i :: 0 <= i < |lines| ==> FromJson(lines[i]).Some?
    ensures AllDigests(RecordedRoots(lines))
  {
    forall i | 0 <= i < |lines|
      ensures |RecordedRoots(lines)[i]| == HASH_LEN
    {
      assert RecordedRoots(lines)[i] == FromJson(lines[i]).value.batchRoot;
    }
  }

  /** The head commits: two intact files of equal length with one head record the same batch roots,
      or a collision is on the table. Files checked with different keys are covered too. */
  lemma HeadBinds(h: Hash, verifier: Option<Verify>, other: Option<Verify>, a: seq<Line>, b: seq<Line>)
    requires Intact(h, verifier, a) && Intact(h, other, b) && |a| == |b|
    requires forall i :: 0 <= i < |a| ==> FromJson(a[i]).Some? && FromJson(b[i]).Some?
    requires PrevRoot(a, |a|) == PrevRoot(b, |b|)
    ensures RecordedRoots(a) == RecordedRoots(b)
         || Collision(h, ChainHashed(h, RecordedRoots(a)) + ChainHashed(h, RecordedRoots(b)))
  {
    hide Intact, Collision, ChainHashed, FromJson, RecordedRoots, ChainRoot, AllDigests, PrevRoot;
    RootsAreDigests(a);
    RootsAreDigests(b);
    HeadCommits(h, verifier, a, |a|);
    HeadCommits(h, other, b, |b|);
    var ra, rb := RecordedRoots(a), RecordedRoots(b);
    ChainBinds(h, ra, rb, |a|);
    assert ra[..|a|] == ra && rb[..|a|] == rb;
  }

  /** Entries that agree on everything the verifier looks at. */
  predicate SameSealed(a: Entry, b: Entry) {
    && a.seqNo == b.seqNo && a.batchRoot == b.batchRoot && a.prevChainedRoot == b.prevChainedRoot
    && a.chainedRoot == b.chainedRoot && a.signature == b.signature
  }

  /** The limit of the signature: leaf counts, event uids and times are not covered, so a file
      in which they are rewritten at will is accepted exactly when the original is. */
  lemma UnsignedFieldsFree(h: Hash, verifier: Option<Verify>, lines: seq<Line>, others: seq<Line>)
    requires |lines| == |others|
    requires forall i :: 0 <= i < |lines| ==>
      lines[i].Json? && others[i].Json? && SameSealed(lines[i].entry, others[i].entry)
    ensures Intact(h, verifier, lines) == Intact(h, verifier, others)
  {
    forall i | 0 <= i < |lines|
      ensures LineSound(h, verifier, lines, i) == LineSound(h, verifier, others, i)
    {
      if i > 0 {
        assert SameSealed(lines[i - 1].entry, others[i - 1].entry);
      }
      assert PrevRoot(lines, i) == PrevRoot(others, i);
    }
  }
}
