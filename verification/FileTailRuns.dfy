/** Runs of the file tailer of ulpf/ingest/file_tail.py over one path: growth, rotation, truncation,
    passes, restarts, crashes and cancellations in any order, and what is then delivered. */
module FileTailRuns {
  import opened Ascii
  import opened Core
  import opened FileTail

  // ----- what can happen to a path and its tailer -----

  /** One path. `live` is the running tailer's position, absent when it has not looked at the path yet;
      `saved` is what the offsets file holds. The old flags say that such a position belongs to content
      that was since replaced. `origin` is where delivery from the present content started, `earlier` the
      lines dealt with in what was there before. */
  datatype Tail = Tail(
    inode: int,
    content: Bytes,
    live: Option<FileState>,
    saved: Option<Saved>,
    oldLive: bool,
    oldSaved: bool,
    delivered: seq<Bytes>,
    origin: nat,
    earlier: seq<Bytes>)

  /** The file grows; it is rotated away and another one takes its place, or it is truncated in place and
      written anew; `poll_once` runs; `watch` scans, which saves only if it delivers
      a line; the process stops between two passes, saving, and starts again; it dies in the middle of a
      pass after delivering the first n lines and before saving, or `watch` is cancelled: it has dealt
      with all chunks up to `before`, has read one more up to `end` and delivered the first n lines of
      that, and still saves the position it has read to. */
  datatype Event =
    | Append(bytes: Bytes)
    | Rotate(inode: int, bytes: Bytes)
    | Truncate(bytes: Bytes)
    | Poll
    | Scan
    | Restart
    | Crash(n: nat)
    | Cancel(before: nat, end: nat, n: nat)

  const START := Tail(0, [], None, None, false, false, [], 0, [])

  function Resumed(t: Tail, startAtEnd: bool): FileState {
    Reconcile(t.live, t.saved, t.inode, |t.content|, startAtEnd)
  }

  /** No position in the present content is known: the next pass is the first over it. */
  predicate Resets(t: Tail) {
    if t.live.Some? then t.oldLive else t.saved.None? || t.oldSaved
  }

  /** `pos`, but not before the position reached nor past the end. */
  function Clip(t: Tail, pos: nat, startAtEnd: bool): nat {
    var lo := Resumed(t, startAtEnd).readPos;
    if pos >= |t.content| then |t.content| else if pos < lo <= |t.content| then lo else pos
  }

  function Prefix(content: Bytes, pos: nat): Bytes {
    if pos < |content| then content[..pos] else content
  }

  /** Reads on up to a position, delivers what is complete there and saves. */
  function ReadTo(t: Tail, pos: nat, startAtEnd: bool): Tail {
    var s := Resumed(t, startAtEnd);
    var seen := Prefix(t.content, Clip(t, pos, startAtEnd));
    var next := Advance(s, seen);
    t.(live := Some(next), saved := Some(Saved(next.inode, Committed(next))), oldLive := false, oldSaved := false,
       delivered := t.delivered + Emitted(s, seen), origin := if Resets(t) then s.readPos else t.origin)
  }

  /** The complete lines of one chunk. */
  function ChunkLines(t: Tail, end: nat, startAtEnd: bool): seq<Bytes> {
    Emitted(Resumed(t, startAtEnd), Prefix(t.content, Clip(t, end, startAtEnd)))
  }

  function FirstLines(lines: seq<Bytes>, n: nat): seq<Bytes> {
    if n < |lines| then lines[..n] else lines
  }

  /** The process saves what it has reached, if it has looked at the file, and ends. */
  function Stopped(t: Tail): Tail {
    if t.live.None? then t
    else t.(live := None, saved := Some(Saved(t.live.value.inode, Committed(t.live.value))), oldSaved := t.oldLive)
  }

  function Replaced(t: Tail, inode: int, bytes: Bytes): Tail {
    t.(inode := inode, content := bytes, oldLive := true, oldSaved := true, origin := 0, earlier := AllDue(t))
  }

  function Step(t: Tail, e: Event, startAtEnd: bool): Tail {
    match e
    case Append(bytes) => t.(content := t.content + bytes)
    case Rotate(inode, bytes) => Replaced(t, inode, bytes)
    case Truncate(bytes) => Replaced(t, t.inode, bytes)
    case Restart => Stopped(t)
    case Poll => ReadTo(t, |t.content|, startAtEnd)
    case Scan =>
      var u := ReadTo(t, |t.content|, startAtEnd);
      if ChunkLines(t, |t.content|, startAtEnd) == [] then u.(saved := t.saved, oldSaved := t.oldSaved) else u
    case Crash(n) =>
      t.(live := None, delivered := t.delivered + FirstLines(ChunkLines(t, |t.content|, startAtEnd), n))
    case Cancel(before, end, n) =>
      var u := ReadTo(t, before, startAtEnd);
      ReadTo(u, end, startAtEnd).(
        live := None, delivered := u.delivered + FirstLines(ChunkLines(u, end, startAtEnd), n))
  }

  /** Lines of the current chunk that a cancellation leaves undelivered. */
  function Undelivered(t: Tail, e: Event, startAtEnd: bool): nat {
    match e
    case Cancel(before, end, n) =>
      var lines := ChunkLines(ReadTo(t, before, startAtEnd), end, startAtEnd);
      if n < |lines| then |lines| - n else 0
    case _ => 0
  }

  function Run(t: Tail, events: seq<Event>, startAtEnd: bool): Tail {
    if events == [] then t
    else Step(Run(t, events[..|events| - 1], startAtEnd), events[|events| - 1], startAtEnd)
  }

  /** Offset reached: everything from the origin up to it has been dealt with. */
  function Consumed(t: Tail): nat {
    if Resets(t) then t.origin else if t.live.Some? then t.live.value.readPos else t.saved.value.offset
  }

  /** Everything dealt with in the present content, in order: its lines between origin and position. */
  function Due(t: Tail): seq<Bytes> {
    if t.origin <= Consumed(t) <= |t.content| then Lines(t.content[t.origin..Consumed(t)]) else []
  }

  /** And in all content that the path ever had. */
  function AllDue(t: Tail): seq<Bytes> {
    t.earlier + Due(t)
  }

  /** The first pass over replaced content would go on as if it were the old one, and prepend the
      fragment held of that. */
  predicate Joins(t: Tail, startAtEnd: bool) {
    Resets(t) && Resumed(t, startAtEnd).pending != []
  }

  predicate IsPass(e: Event) {
    e.Poll? || e.Scan?
  }

  predicate Replaces(e: Event) {
    e.Rotate? || e.Truncate?
  }

  /** No pass joins what it should not. */
  predicate Fits(t: Tail, e: Event, startAtEnd: bool) {
    IsPass(e) || e.Cancel? ==> !Joins(t, startAtEnd)
  }

  /** Exactly the lines between origin and `Consumed` were delivered since the content was replaced, the
      partial rest is held, and the saved offset is a line boundary with no line between it and
      `Consumed`. */
  ghost predicate InStep(t: Tail) {
    && t.origin <= Consumed(t) <= |t.content|
    && t.delivered == t.earlier + Lines(t.content[t.origin..Consumed(t)])
    && (t.live.Some? && !t.oldLive ==>
      && t.live.value.inode == t.inode
      && t.live.value.pending == Rest(t.content[t.origin..Consumed(t)]))
    && (t.live.Some? && t.oldLive && t.saved.Some? ==> t.oldSaved)
    && (t.saved.Some? && !t.oldSaved ==>
      && t.saved.value.inode == t.inode
      && t.origin <= t.saved.value.offset <= Consumed(t)
      && Rest(t.content[t.origin..t.saved.value.offset]) == []
      && t.delivered == t.earlier + Lines(t.content[t.origin..t.saved.value.offset]))
  }

  lemma GrownPrefix(content: Bytes, more: Bytes, lo: nat, hi: nat)
    requires lo <= hi <= |content|
    ensures (content + more)[lo..hi] == content[lo..hi]
  {}

  /** Reading on from a position inside the file. */
  lemma AdvanceReads(content: Bytes, origin: nat, s: FileState)
    requires origin <= s.readPos <= |content|
    requires s.pending == Rest(content[origin..s.readPos])
    ensures Lines(content[origin..s.readPos]) + Emitted(s, content) == Lines(content[origin..])
    ensures Advance(s, content).readPos == |content| && Advance(s, content).inode == s.inode
    ensures Advance(s, content).pending == Rest(content[origin..])
  {
    assert content[origin..] == content[origin..s.readPos] + content[s.readPos..];
    LinesAppend(content[origin..s.readPos], content[s.readPos..]);
    if s.readPos == |content| {
      assert content[origin..] == content[origin..s.readPos];
    }
  }

  lemma BoundaryOfTail(content: Bytes, origin: nat, s: FileState)
    requires origin <= |content| && s.readPos == |content| && s.pending == Rest(content[origin..])
    ensures origin <= Committed(s) <= |content|
    ensures Rest(content[origin..Committed(s)]) == []
    ensures Lines(content[origin..Committed(s)]) == Lines(content[origin..])
  {
    var data := content[origin..];
    BoundaryCut(data);
    assert content[origin..Committed(s)] == data[..|data| - |Rest(data)|];
  }

  lemma NothingYet(content: Bytes)
    ensures content[..0] == [] && Lines([]) == [] && Rest([]) == []
  {}

  /** Where reading starts: nothing of the file is between the saved or held position and what was
      delivered. */
  lemma ResumedInStep(t: Tail, startAtEnd: bool)
    requires InStep(t) && !Joins(t, startAtEnd)
    ensures var s := Resumed(t, startAtEnd);
      var origin := if Resets(t) then s.readPos else t.origin;
      && origin <= s.readPos <= |t.content| && s.inode == t.inode
      && s.pending == Rest(t.content[origin..s.readPos])
      && t.delivered == t.earlier + Lines(t.content[origin..s.readPos])
  {
    var s := Resumed(t, startAtEnd);
    assert t.content[t.origin..t.origin] == [] && t.content[s.readPos..s.readPos] == [];
    assert Lines([]) == [] && Rest([]) == [];
  }

  lemma ReadInStep(t: Tail, pos: nat, startAtEnd: bool)
    requires InStep(t) && !Joins(t, startAtEnd)
    ensures InStep(ReadTo(t, pos, startAtEnd))
    ensures Consumed(ReadTo(t, pos, startAtEnd)) == Clip(t, pos, startAtEnd)
  {
    hide Lines, Rest;
    ResumedInStep(t, startAtEnd);
    var s := Resumed(t, startAtEnd);
    var next := ReadTo(t, pos, startAtEnd);
    var p := Clip(t, pos, startAtEnd);
    var seen := Prefix(t.content, p);
    SlicesOfPrefix(t.content, p, next.origin, s.readPos);
    AdvanceReads(seen, next.origin, s);
    BoundaryOfTail(seen, next.origin, Advance(s, seen));
    SlicesOfPrefix(t.content, p, next.origin, Committed(Advance(s, seen)));
    SeqAssoc(t.earlier, Lines(t.content[next.origin..s.readPos]), Emitted(s, seen));
  }

  lemma SlicesOfPrefix(content: Bytes, p: nat, lo: nat, hi: nat)
    requires lo <= hi <= p <= |content|
    ensures |Prefix(content, p)| == p
    ensures Prefix(content, p)[lo..hi] == content[lo..hi] && Prefix(content, p)[lo..] == content[lo..p]
  {
    assert Prefix(content, p) == content[..p];
    assert content[..p][lo..hi] == content[lo..hi] && content[..p][lo..] == content[lo..p];
  }

  /** A cancellation that leaves no line undelivered keeps everything in step. */
  lemma CancelInStep(t: Tail, before: nat, end: nat, n: nat, startAtEnd: bool)
    requires InStep(t) && !Joins(t, startAtEnd) && Undelivered(t, Cancel(before, end, n), startAtEnd) == 0
    ensures InStep(Step(t, Cancel(before, end, n), startAtEnd))
  {
    hide Lines, Rest, Advance, Emitted, Clip, Prefix;
    var u := ReadTo(t, before, startAtEnd);
    ReadInStep(t, before, startAtEnd);
    ReadInStep(u, end, startAtEnd);
    RestartInStep(ReadTo(u, end, startAtEnd));
    assert Step(t, Cancel(before, end, n), startAtEnd) == Stopped(ReadTo(u, end, startAtEnd));
  }

  lemma RestartInStep(t: Tail)
    requires InStep(t)
    ensures InStep(Stopped(t))
  {
    if t.live.Some? && !t.oldLive {
      hide Lines, Rest;
      var seen := Prefix(t.content, Consumed(t));
      SlicesOfPrefix(t.content, Consumed(t), t.origin, Consumed(t));
      BoundaryOfTail(seen, t.origin, t.live.value);
      SlicesOfPrefix(t.content, Consumed(t), t.origin, Committed(t.live.value));
    }
  }

  /** A scan that delivers nothing may leave the saved offset behind. */
  lemma ScanInStep(t: Tail, startAtEnd: bool)
    requires InStep(t) && !Joins(t, startAtEnd)
    ensures InStep(Step(t, Scan, startAtEnd))
  {
    hide Lines, Rest, Advance, Emitted, Prefix;
    ReadInStep(t, |t.content|, startAtEnd);
    if ChunkLines(t, |t.content|, startAtEnd) == [] {
      assert ReadTo(t, |t.content|, startAtEnd).delivered == t.delivered;
    }
  }

  lemma ReplacedInStep(t: Tail, inode: int, bytes: Bytes)
    requires InStep(t)
    ensures InStep(Replaced(t, inode, bytes)) && AllDue(t) == t.delivered
  {
    NothingYet(bytes);
    assert bytes[0..0] == [] && AllDue(t) + [] == AllDue(t);
  }

  lemma StepInStep(t: Tail, e: Event, startAtEnd: bool)
    requires InStep(t) && !e.Crash? && Fits(t, e, startAtEnd) && Undelivered(t, e, startAtEnd) == 0
    ensures InStep(Step(t, e, startAtEnd))
  {
    hide Lines, Rest, ReadTo;
    match e {
      case Append(bytes) =>
        GrownPrefix(t.content, bytes, t.origin, Consumed(t));
        if t.saved.Some? && !t.oldSaved {
          GrownPrefix(t.content, bytes, t.origin, t.saved.value.offset);
        }
      case Rotate(inode, bytes) => ReplacedInStep(t, inode, bytes);
      case Truncate(bytes) => ReplacedInStep(t, t.inode, bytes);
      case Poll => ReadInStep(t, |t.content|, startAtEnd);
      case Scan => ScanInStep(t, startAtEnd);
      case Restart => RestartInStep(t);
      case Cancel(before, end, n) => CancelInStep(t, before, end, n, startAtEnd);
    }
  }

  // ----- exactly once, and when not -----

  /** The lines a step delivers. */
  function Added(t: Tail, e: Event, startAtEnd: bool): seq<Bytes> {
    match e
    case Append(_) => []
    case Rotate(_, _) => []
    case Truncate(_) => []
    case Restart => []
    case Poll => ChunkLines(t, |t.content|, startAtEnd)
    case Scan => ChunkLines(t, |t.content|, startAtEnd)
    case Crash(n) => FirstLines(ChunkLines(t, |t.content|, startAtEnd), n)
    case Cancel(before, end, n) =>
      ChunkLines(t, before, startAtEnd) + FirstLines(ChunkLines(ReadTo(t, before, startAtEnd), end, startAtEnd), n)
  }

  /** What a step does to file, positions and saved offset, and what it delivers, does not depend
      on what was delivered before. */
  lemma StepAdds(t: Tail, delivered: seq<Bytes>, e: Event, startAtEnd: bool)
    ensures Step(t, e, startAtEnd).delivered == t.delivered + Added(t, e, startAtEnd)
    ensures Step(t.(delivered := delivered), e, startAtEnd)
         == Step(t, e, startAtEnd).(delivered := delivered + Added(t, e, startAtEnd))
    ensures Undelivered(t.(delivered := delivered), e, startAtEnd) == Undelivered(t, e, startAtEnd)
  {
    hide Advance, Emitted, Prefix, Reconcile;
    if e.Cancel? {
      var lines := FirstLines(ChunkLines(ReadTo(t, e.before, startAtEnd), e.end, startAtEnd), e.n);
      SeqAssoc(t.delivered, ChunkLines(t, e.before, startAtEnd), lines);
      SeqAssoc(delivered, ChunkLines(t, e.before, startAtEnd), lines);
    }
  }

  /** The same event, had a cancellation left nothing undelivered. */
  function Completed(t: Tail, e: Event, startAtEnd: bool): Event {
    match e
    case Cancel(before, end, n) => Cancel(before, end, n + Undelivered(t, e, startAtEnd))
    case _ => e
  }

  lemma CompletedDelivers(t: Tail, e: Event, startAtEnd: bool)
    requires !e.Crash?
    ensures var whole := Completed(t, e, startAtEnd);
      && Undelivered(t, whole, startAtEnd) == 0 && !whole.Crash?
      && (IsPass(whole) <==> IsPass(e)) && (whole.Cancel? <==> e.Cancel?)
      && (Undelivered(t, e, startAtEnd) == 0 ==> whole == e)
      && |Added(t, whole, startAtEnd)| == |Added(t, e, startAtEnd)| + Undelivered(t, e, startAtEnd)
      && Step(t, whole, startAtEnd) == Step(t, e, startAtEnd).(delivered := Step(t, whole, startAtEnd).delivered)
  {
    hide ReadTo, ChunkLines;
  }

  /** The tail is in step except that `missed` of all the lines due were not delivered. */
  ghost predicate InStepBut(t: Tail, missed: nat) {
    && InStep(t.(delivered := AllDue(t)))
    && |t.delivered| + missed == |AllDue(t)|
    && (missed == 0 ==> t.delivered == AllDue(t))
  }

  lemma StepInStepBut(t: Tail, missed: nat, e: Event, startAtEnd: bool)
    requires InStepBut(t, missed) && !e.Crash? && Fits(t, e, startAtEnd)
    ensures InStepBut(Step(t, e, startAtEnd), missed + Undelivered(t, e, startAtEnd))
  {
    hide Step, Added, Undelivered, Completed, Lines, Rest, Reconcile;
    var ideal := t.(delivered := AllDue(t));
    var whole := Completed(t, e, startAtEnd);
    CompletedDelivers(t, e, startAtEnd);
    StepAdds(t, AllDue(t), e, startAtEnd);
    StepAdds(t, AllDue(t), whole, startAtEnd);
    StepInStep(ideal, whole, startAtEnd);
    var next := Step(t, e, startAtEnd);
    assert Step(ideal, whole, startAtEnd) == next.(delivered := AllDue(t) + Added(t, whole, startAtEnd));
    AllDueIs(Step(ideal, whole, startAtEnd));
  }

  lemma AllDueIs(t: Tail)
    requires InStep(t)
    ensures t.delivered == AllDue(t)
  {}

  /** How many lines a run's cancellations leave undelivered. */
  function Missed(events: seq<Event>, startAtEnd: bool): nat {
    if events == [] then 0
    else
      var front := events[..|events| - 1];
      Missed(front, startAtEnd) + Undelivered(Run(START, front, startAtEnd), events[|events| - 1], startAtEnd)
  }

  /** No cancellation hits with undelivered lines of its current chunk. */
  ghost predicate Lossless(events: seq<Event>, startAtEnd: bool) {
    forall i :: 0 <= i < |events| ==> Undelivered(Run(START, events[..i], startAtEnd), events[i], startAtEnd) == 0
  }

  lemma LosslessSnoc(events: seq<Event>, startAtEnd: bool)
    requires events != []
    ensures var front := events[..|events| - 1];
      Lossless(events, startAtEnd) <==>
        Lossless(front, startAtEnd) && Undelivered(Run(START, front, startAtEnd), events[|events| - 1], startAtEnd) == 0
  {
    hide Run, Undelivered;
    var front := events[..|events| - 1];
    forall i | 0 <= i < |front|
      ensures events[..i] == front[..i] && events[i] == front[i]
    {}
  }

  lemma {:induction false} MissedExactly(events: seq<Event>, startAtEnd: bool)
    ensures Missed(events, startAtEnd) == 0 <==> Lossless(events, startAtEnd)
    decreases |events|
  {
    if events != [] {
      hide Undelivered, Lossless, Run;
      LosslessSnoc(events, startAtEnd);
      MissedExactly(events[..|events| - 1], startAtEnd);
    }
  }

  /** No pass of the run joins a fragment of replaced content to new content. */
  ghost predicate NeverJoins(events: seq<Event>, startAtEnd: bool) {
    forall i :: 0 <= i < |events| ==> Fits(Run(START, events[..i], startAtEnd), events[i], startAtEnd)
  }

  lemma NeverJoinsSnoc(events: seq<Event>, startAtEnd: bool)
    requires events != []
    ensures var front := events[..|events| - 1];
      NeverJoins(events, startAtEnd) <==>
        NeverJoins(front, startAtEnd) && Fits(Run(START, front, startAtEnd), events[|events| - 1], startAtEnd)
  {
    hide Run, Fits;
    var front := events[..|events| - 1];
    forall i | 0 <= i < |front|
      ensures events[..i] == front[..i] && events[i] == front[i]
    {}
  }

  lemma {:induction false} RunInStepBut(events: seq<Event>, startAtEnd: bool)
    requires NeverJoins(events, startAtEnd) && forall e :: e in events ==> !e.Crash?
    ensures InStepBut(Run(START, events, startAtEnd), Missed(events, startAtEnd))
  {
    if events == [] {
      NothingYet(START.content);
      assert START.content[0..0] == [];
    } else {
      hide Step, Undelivered, InStepBut, NeverJoins;
      NeverJoinsSnoc(events, startAtEnd);
      RunInStepBut(events[..|events| - 1], startAtEnd);
      StepInStepBut(Run(START, events[..|events| - 1], startAtEnd), Missed(events[..|events| - 1], startAtEnd),
                    events[|events| - 1], startAtEnd);
    }
  }

  /** Exactly once, and exactly when: whatever the interleaving of growth, replacement, passes, clean
      restarts and cancelled passes, the lines delivered are those of the consumed part of each content
      the path had, in order and none twice, if and only if no cancellation hits with undelivered lines of
      its current chunk; otherwise just those lines are missing. A pass consumes all there is. */
  lemma TailExactlyOnce(events: seq<Event>, startAtEnd: bool)
    requires NeverJoins(events, startAtEnd) && forall e :: e in events ==> !e.Crash?
    ensures var t := Run(START, events, startAtEnd);
      && t.origin <= Consumed(t) <= |t.content|
      && (t.delivered == t.earlier + Lines(t.content[t.origin..Consumed(t)]) <==> Lossless(events, startAtEnd))
      && |t.delivered| + Missed(events, startAtEnd) == |t.earlier + Lines(t.content[t.origin..Consumed(t)])|
      && (events != [] && IsPass(events[|events| - 1]) ==> Consumed(t) == |t.content| && !Resets(t))
  {
    hide Lines, Rest, Run, Missed, InStep, Lossless, NeverJoins;
    RunInStepBut(events, startAtEnd);
    MissedExactly(events, startAtEnd);
    BoundsOf(Run(START, events, startAtEnd));
    if events != [] && IsPass(events[|events| - 1]) {
      PassConsumes(events, startAtEnd);
    }
  }

  lemma BoundsOf(t: Tail)
    requires InStep(t.(delivered := AllDue(t)))
    ensures t.origin <= Consumed(t) <= |t.content|
  {}

  lemma PassConsumes(events: seq<Event>, startAtEnd: bool)
    requires events != [] && IsPass(events[|events| - 1])
    requires NeverJoins(events, startAtEnd) && forall e :: e in events ==> !e.Crash?
    ensures var t := Run(START, events, startAtEnd); Consumed(t) == |t.content| && !Resets(t)
  {
    hide Lines, Rest, InStep, Undelivered, Advance, Emitted, NeverJoins, Reconcile;
    var t := Run(START, events[..|events| - 1], startAtEnd);
    NeverJoinsSnoc(events, startAtEnd);
    RunInStepBut(events[..|events| - 1], startAtEnd);
    ReadInStep(t.(delivered := AllDue(t)), |t.content|, startAtEnd);
    StepAdds(t, AllDue(t), events[|events| - 1], startAtEnd);
  }

  /** Over a file that is never replaced, nothing is ever joined, and unless the tailer starts at the end
      the origin is the start of the file. */
  lemma {:induction false} NeverReplaced(events: seq<Event>, startAtEnd: bool)
    requires forall e :: e in events ==> !Replaces(e)
    ensures NeverJoins(events, startAtEnd)
    ensures var t := Run(START, events, startAtEnd);
      t.earlier == [] && !t.oldLive && !t.oldSaved && (!startAtEnd ==> t.origin == 0)
  {
    if events != [] {
      hide NeverJoins, Step, Fits;
      var front := events[..|events| - 1];
      NeverReplaced(front, startAtEnd);
      NeverJoinsSnoc(events, startAtEnd);
      KeepsContent(Run(START, front, startAtEnd), events[|events| - 1], startAtEnd);
    }
  }

  lemma KeepsContent(t: Tail, e: Event, startAtEnd: bool)
    requires !Replaces(e) && !t.oldLive && !t.oldSaved
    ensures Fits(t, e, startAtEnd)
    ensures var next := Step(t, e, startAtEnd);
      && next.earlier == t.earlier && !next.oldLive && !next.oldSaved
      && (!startAtEnd && t.origin == 0 ==> next.origin == 0)
  {
    hide Lines, Rest, Emitted, Advance, Clip, Prefix;
  }

  predicate IsText(b: byte) {
    b != LF && b != CR
  }

  /** The loss is real, and permanent: two lines are read, the pass is cancelled after the first, and
      the second is not delivered by the next poll. */
  lemma CancelLosesLines(x: byte, y: byte, file: Bytes)
    requires IsText(x) && IsText(y) && file == [x, LF, y, LF]
    ensures Run(START, [Append(file), Cancel(0, 4, 1), Poll], false).delivered == [[x]]
    ensures Lines(file) == [[x], [y]]
  {
    hide Lines, Rest, Run, Step;
    TwoLines(x, y, file);
    CancelledAfterOne(x, y, file);
    var e0, e1, e2 := Append(file), Cancel(0, 4, 1), Poll;
    RunSnoc([], e0, false);
    RunSnoc([e0], e1, false);
    RunSnoc([e0, e1], e2, false);
    assert [] + [e0] == [e0] && [e0] + [e1] == [e0, e1] && [e0, e1] + [e2] == [e0, e1, e2];
  }

  lemma CancelledAfterOne(x: byte, y: byte, file: Bytes)
    requires IsText(x) && IsText(y) && file == [x, LF, y, LF]
    ensures var grown := Step(START, Append(file), false);
      var cancelled := Step(grown, Cancel(0, 4, 1), false);
      cancelled.delivered == [[x]] && Step(cancelled, Poll, false).delivered == [[x]]
  {
    TwoLines(x, y, file);
    hide Lines, Rest;
    var t1 := START.(content := file);
    assert [] + file == file;
    var u := ReadTo(t1, 0, false);
    assert Prefix(file, 0) == [];
    assert u == t1.(live := Some(FileState(0, 0, [])), saved := Some(Saved(0, 0)));
    assert [] + file[0..] == file;
    assert ChunkLines(u, 4, false) == [[x], [y]];
    assert Step(t1, Cancel(0, 4, 1), false) == t1.(saved := Some(Saved(0, 4)), delivered := [[x]]);
  }

  lemma TwoLines(x: byte, y: byte, file: Bytes)
    requires IsText(x) && IsText(y) && file == [x, LF, y, LF]
    ensures Lines(file) == [[x], [y]] && Rest(file) == []
  {
    NothingYet([]);
    hide Lines, Rest;
    assert [] + [x] == [x] && [x] + [LF] == [x, LF];
    assert [x, LF] + [y] == [x, LF, y] && [x, LF, y] + [LF] == file;
    PushByte([], x);
    PushByte([x], LF);
    assert Lines([x, LF]) == [] + [[x]] && Rest([x, LF]) == [];
    PushByte([x, LF], y);
    assert Rest([x, LF, y]) == [y];
    PushByte([x, LF, y], LF);
    assert Lines(file) == [[x]] + [[y]];
  }

  // ----- rotation and truncation -----

  /** What a pass delivers, whatever came before it. */
  lemma PassDelivers(t: Tail, e: Event, startAtEnd: bool)
    requires IsPass(e)
    ensures var next, c := Step(t, e, startAtEnd), t.content;
      && (t.live.Some? && (t.live.value.inode != t.inode || |c| < t.live.value.readPos) ==>
           next.delivered == t.delivered + Lines(c) && next.live == Some(FileState(t.inode, |c|, Rest(c))))
      && (t.live.None? && (t.saved.None? || t.saved.value.inode != t.inode) && !startAtEnd ==>
           next.delivered == t.delivered + Lines(c) && next.live == Some(FileState(t.inode, |c|, Rest(c))))
      && (t.live.None? && (t.saved.None? || t.saved.value.inode != t.inode) && startAtEnd ==>
           next.delivered == t.delivered && next.live == Some(FileState(t.inode, |c|, [])))
      && (t.live.None? && t.saved.Some? && t.saved.value.inode == t.inode && |c| <= t.saved.value.offset ==>
           next.delivered == t.delivered && next.live == Some(FileState(t.inode, |c|, [])))
  {
    hide Reconcile, Advance, Emitted, Lines, Rest, Resets;
    var s := Resumed(t, startAtEnd);
    assert Prefix(t.content, Clip(t, |t.content|, startAtEnd)) == t.content;
    WhereItGoesOn(t.live, t.saved, t.inode, t.content, startAtEnd);
    LinesOfNothing();
    assert t.content[|t.content|..] == [];
    assert t.delivered + [] == t.delivered;
  }

  /** The first pass over a replaced content, exactly: when it joins an old fragment to it, and when it
      reads it from its first byte. */
  lemma FirstPassExactly(t: Tail, startAtEnd: bool)
    requires Resets(t)
    ensures Joins(t, startAtEnd) <==>
      && t.live.Some? && t.live.value.inode == t.inode
      && t.live.value.readPos <= |t.content| && t.live.value.pending != []
    ensures (forall e :: IsPass(e) && !Joins(t, startAtEnd) ==> Step(t, e, startAtEnd).origin == 0) <==>
      || Joins(t, startAtEnd)
      || t.content == []
      || (t.live.Some? &&
           (t.live.value.inode != t.inode || |t.content| < t.live.value.readPos || t.live.value.readPos == 0))
      || (t.live.None? && if t.saved.Some? && t.saved.value.inode == t.inode then t.saved.value.offset == 0 else !startAtEnd)
  {
    hide Lines, Rest, Emitted, Advance, Clip, Prefix;
    assert IsPass(Poll);
    assert Step(t, Poll, startAtEnd).origin == Resumed(t, startAtEnd).readPos;
    assert Step(t, Scan, startAtEnd).origin == Resumed(t, startAtEnd).readPos;
  }

  lemma {:induction false} RunConcat(t: Tail, a: seq<Event>, b: seq<Event>, startAtEnd: bool)
    ensures Run(t, a + b, startAtEnd) == Run(Run(t, a, startAtEnd), b, startAtEnd)
    decreases |b|
  {
    hide Step;
    if b == [] {
      assert a + b == a;
    } else {
      assert (a + b)[..|a + b| - 1] == a + b[..|b| - 1];
      RunConcat(t, a, b[..|b| - 1], startAtEnd);
    }
  }

  /** The content is read from its start: what is known of a position in it says so, and what is known
      from before is of another inode. */
  ghost predicate Anew(t: Tail) {
    && t.origin == 0
    && (t.live.Some? && t.oldLive ==> t.live.value.inode != t.inode)
    && (t.saved.Some? && t.oldSaved ==> t.saved.value.inode != t.inode)
  }

  lemma AnewStep(t: Tail, e: Event)
    requires Anew(t) && !Replaces(e)
    ensures Fits(t, e, false)
    ensures var next := Step(t, e, false); Anew(next) && next.earlier == t.earlier && next.inode == t.inode
  {
    hide Lines, Rest, Emitted, Clip, Prefix;
  }

  lemma FitsSnoc(t: Tail, events: seq<Event>, startAtEnd: bool)
    requires events != []
    requires var front := events[..|events| - 1];
      && (forall i :: 0 <= i < |front| ==> Fits(Run(t, front[..i], startAtEnd), front[i], startAtEnd))
      && Fits(Run(t, front, startAtEnd), events[|events| - 1], startAtEnd)
    ensures forall i :: 0 <= i < |events| ==> Fits(Run(t, events[..i], startAtEnd), events[i], startAtEnd)
  {
    hide Run, Fits;
    var front := events[..|events| - 1];
    forall i | 0 <= i < |events|
      ensures Fits(Run(t, events[..i], startAtEnd), events[i], startAtEnd)
    {
      if i < |front| {
        assert events[..i] == front[..i] && events[i] == front[i];
      }
    }
  }

  lemma {:induction false} AnewRun(t: Tail, events: seq<Event>)
    requires Anew(t) && forall e :: e in events ==> !Replaces(e)
    ensures forall i :: 0 <= i < |events| ==> Fits(Run(t, events[..i], false), events[i], false)
    ensures var next := Run(t, events, false); Anew(next) && next.earlier == t.earlier && next.inode == t.inode
  {
    if events != [] {
      hide Step, Fits, Anew;
      var front := events[..|events| - 1];
      AnewRun(t, front);
      AnewStep(Run(t, front, false), events[|events| - 1]);
      FitsSnoc(t, events, false);
    }
  }

  lemma NeverJoinsConcat(a: seq<Event>, b: seq<Event>, startAtEnd: bool)
    requires NeverJoins(a, startAtEnd)
    requires forall i :: 0 <= i < |b| ==> Fits(Run(Run(START, a, startAtEnd), b[..i], startAtEnd), b[i], startAtEnd)
    ensures NeverJoins(a + b, startAtEnd)
  {
    hide Run, Fits;
    forall i | 0 <= i < |a + b|
      ensures Fits(Run(START, (a + b)[..i], startAtEnd), (a + b)[i], startAtEnd)
    {
      if i < |a| {
        assert (a + b)[..i] == a[..i];
      } else {
        assert (a + b)[..i] == a + b[..i - |a|];
        RunConcat(START, a, b[..i - |a|], startAtEnd);
      }
    }
  }

  /** Rotation: once the path holds a file of an inode that neither the running tailer nor the offsets
      file knows, that file's lines are delivered exactly once each after those of the files before it,
      from its first byte, whatever growth, passes, restarts and cancellations follow. */
  lemma RotatedOnce(before: seq<Event>, inode: int, bytes: Bytes, after: seq<Event>)
    requires NeverJoins(before, false) && forall e :: e in before ==> !e.Crash?
    requires forall e :: e in after ==> !e.Crash? && !Replaces(e)
    requires after != [] && IsPass(after[|after| - 1])
    requires var r := Run(START, before, false);
      (r.live.Some? ==> r.live.value.inode != inode) && (r.saved.Some? ==> r.saved.value.inode != inode)
    requires Lossless(before + [Rotate(inode, bytes)] + after, false)
    ensures var r, t := Run(START, before, false), Run(START, before + [Rotate(inode, bytes)] + after, false);
      && t.delivered == r.delivered + Lines(t.content)
      && t.live == Some(FileState(inode, |t.content|, Rest(t.content)))
  {
    hide Lines, Rest, Run, Step, Lossless, NeverJoins, Fits, Anew;
    var e := Rotate(inode, bytes);
    var r := Run(START, before, false);
    var u := Step(r, e, false);
    RunSnoc(before, e, false);
    RotatedAnew(r, inode, bytes);
    AnewRun(u, after);
    NeverJoinsReplace(before, e, false);
    NeverJoinsConcat(before + [e], after, false);
    RunConcat(START, before + [e], after, false);
    AnewOrigin(Run(u, after, false));
    FromFirstByte(before, e, after, false);
  }

  lemma RotatedAnew(r: Tail, inode: int, bytes: Bytes)
    requires (r.live.Some? ==> r.live.value.inode != inode) && (r.saved.Some? ==> r.saved.value.inode != inode)
    ensures var u := Step(r, Rotate(inode, bytes), false); Anew(u) && u.inode == inode
  {
    hide AllDue;
  }

  lemma NeverJoinsReplace(before: seq<Event>, e: Event, startAtEnd: bool)
    requires NeverJoins(before, startAtEnd) && Replaces(e)
    ensures NeverJoins(before + [e], startAtEnd)
  {
    hide NeverJoins;
    NeverJoinsSnoc(before + [e], startAtEnd);
    assert (before + [e])[..|before + [e]| - 1] == before;
  }

  /** When a replacement is followed by a run that reads the new content from its first byte, the lines
      delivered are those due before it and the lines of that content. */
  lemma FromFirstByte(before: seq<Event>, e: Event, after: seq<Event>, startAtEnd: bool)
    requires NeverJoins(before, startAtEnd) && NeverJoins(before + [e] + after, startAtEnd)
    requires (forall a :: a in before ==> !a.Crash?) && (forall a :: a in after ==> !a.Crash?) && Replaces(e)
    requires after != [] && IsPass(after[|after| - 1]) && Lossless(before + [e] + after, startAtEnd)
    requires var r, t := Run(START, before, startAtEnd), Run(START, before + [e] + after, startAtEnd);
      t.origin == 0 && t.earlier == Step(r, e, startAtEnd).earlier
    ensures var r, t := Run(START, before, startAtEnd), Run(START, before + [e] + after, startAtEnd);
      && t.delivered == r.delivered + Lines(t.content)
      && t.live == Some(FileState(t.inode, |t.content|, Rest(t.content)))
  {
    hide Lines, Rest, Run, Step, Lossless, NeverJoins, Fits, Resets, Consumed, InStep;
    var all := before + [e] + after;
    var r, t := Run(START, before, startAtEnd), Run(START, all, startAtEnd);
    assert all[|all| - 1] == after[|after| - 1] && before + ([e] + after) == all;
    LosslessPrefix(before, [e] + after, startAtEnd);
    TailExactlyOnce(before, startAtEnd);
    EarlierIs(r, e, startAtEnd);
    TailExactlyOnce(all, startAtEnd);
    RunInStepBut(all, startAtEnd);
    assert all[..|all| - 1] == before + [e] + after[..|after| - 1];
    RunSnoc(all[..|all| - 1], all[|all| - 1], startAtEnd);
    assert all[..|all| - 1] + [all[|all| - 1]] == all;
    PassHolds(Run(START, all[..|all| - 1], startAtEnd), all[|all| - 1], startAtEnd);
    assert t.content[0..|t.content|] == t.content;
  }

  lemma EarlierIs(r: Tail, e: Event, startAtEnd: bool)
    requires Replaces(e) && r.origin <= Consumed(r) <= |r.content|
    ensures Step(r, e, startAtEnd).earlier == r.earlier + Lines(r.content[r.origin..Consumed(r)])
  {}

  /** After a pass the tailer is at the end of the file, holding its partial last line. */
  lemma PassHolds(t: Tail, e: Event, startAtEnd: bool)
    requires IsPass(e) && InStep(Step(t, e, startAtEnd).(delivered := AllDue(Step(t, e, startAtEnd))))
    requires Consumed(Step(t, e, startAtEnd)) == |Step(t, e, startAtEnd).content|
    ensures var next := Step(t, e, startAtEnd);
      next.origin == 0 ==> next.live == Some(FileState(next.inode, |next.content|, Rest(next.content)))
  {
    hide Lines, Rest, Emitted, Clip, Prefix, Advance, Resumed;
    var next := Step(t, e, startAtEnd);
    assert next.content[0..|next.content|] == next.content;
  }

  lemma {:induction false} LosslessPrefix(a: seq<Event>, b: seq<Event>, startAtEnd: bool)
    requires Lossless(a + b, startAtEnd)
    ensures Lossless(a, startAtEnd)
  {
    hide Run, Undelivered;
    forall i | 0 <= i < |a|
      ensures Undelivered(Run(START, a[..i], startAtEnd), a[i], startAtEnd) == 0
    {
      assert (a + b)[..i] == a[..i] && (a + b)[i] == a[i];
    }
  }

  /** The present content was read from its first byte, and a position in it is known. */
  ghost predicate Settled(t: Tail) {
    && t.origin == 0 && !Resets(t)
    && (t.live.Some? ==> t.live.value.inode == t.inode && t.live.value.readPos <= |t.content|)
    && (t.saved.Some? && !t.oldSaved ==> t.saved.value.inode == t.inode)
  }

  lemma SettledStep(t: Tail, e: Event, startAtEnd: bool)
    requires Settled(t) && !Replaces(e) && !e.Crash?
    ensures Fits(t, e, startAtEnd)
    ensures var next := Step(t, e, startAtEnd); Settled(next) && next.earlier == t.earlier && next.inode == t.inode
  {
    hide Lines, Rest, Emitted, Unread;
  }

  lemma {:induction false} SettledRun(t: Tail, events: seq<Event>, startAtEnd: bool)
    requires Settled(t) && forall e :: e in events ==> !Replaces(e) && !e.Crash?
    ensures forall i :: 0 <= i < |events| ==> Fits(Run(t, events[..i], startAtEnd), events[i], startAtEnd)
    ensures var next := Run(t, events, startAtEnd); Settled(next) && next.earlier == t.earlier && next.inode == t.inode
  {
    if events != [] {
      hide Step, Fits, Settled;
      var front := events[..|events| - 1];
      SettledRun(t, front, startAtEnd);
      SettledStep(Run(t, front, startAtEnd), events[|events| - 1], startAtEnd);
      FitsSnoc(t, events, startAtEnd);
    }
  }

  /** Truncation: a running tailer that finds the file shorter than what it has read delivers the lines of
      the new content exactly once each, from its first byte, without the fragment it held of the old
      one. */
  lemma TruncatedOnce(before: seq<Event>, bytes: Bytes, pass: Event, after: seq<Event>, startAtEnd: bool)
    requires NeverJoins(before, startAtEnd) && forall e :: e in before ==> !e.Crash?
    requires IsPass(pass) && forall e :: e in after ==> !e.Crash? && !Replaces(e)
    requires after != [] ==> IsPass(after[|after| - 1])
    requires var r := Run(START, before, startAtEnd); r.live.Some? && |bytes| < r.live.value.readPos
    requires Lossless(before + [Truncate(bytes)] + ([pass] + after), startAtEnd)
    ensures var r, t := Run(START, before, startAtEnd), Run(START, before + [Truncate(bytes)] + ([pass] + after), startAtEnd);
      && t.delivered == r.delivered + Lines(t.content)
      && t.live == Some(FileState(t.inode, |t.content|, Rest(t.content)))
  {
    hide Lines, Rest, Run, Step, Lossless, NeverJoins, Fits, Settled;
    var e := Truncate(bytes);
    var r := Run(START, before, startAtEnd);
    var u := Step(r, e, startAtEnd);
    var v := Step(u, pass, startAtEnd);
    RunSnoc(before, e, startAtEnd);
    ShrinkIsSeen(r, bytes, pass, startAtEnd);
    NeverJoinsReplace(before, e, startAtEnd);
    SettledRun(v, after, startAtEnd);
    PassFirst(u, pass, after, startAtEnd);
    NeverJoinsConcat(before + [e], [pass] + after, startAtEnd);
    RunConcat(START, before + [e], [pass] + after, startAtEnd);
    SettledOrigin(Run(v, after, startAtEnd));
    FromFirstByte(before, e, [pass] + after, startAtEnd);
  }

  lemma SettledOrigin(t: Tail)
    requires Settled(t)
    ensures t.origin == 0
  {}

  lemma ShrinkIsSeen(r: Tail, bytes: Bytes, pass: Event, startAtEnd: bool)
    requires IsPass(pass) && r.live.Some? && |bytes| < r.live.value.readPos
    ensures var u := Step(r, Truncate(bytes), startAtEnd);
      var v := Step(u, pass, startAtEnd);
      Fits(u, pass, startAtEnd) && Settled(v) && v.earlier == u.earlier
  {
    hide Lines, Rest, Emitted, AllDue, Unread;
    var u := Step(r, Truncate(bytes), startAtEnd);
    assert Prefix(bytes, Clip(u, |bytes|, startAtEnd)) == bytes;
  }

  lemma PassFirst(u: Tail, pass: Event, after: seq<Event>, startAtEnd: bool)
    requires Fits(u, pass, startAtEnd)
    requires forall i :: 0 <= i < |after| ==> Fits(Run(Step(u, pass, startAtEnd), after[..i], startAtEnd), after[i], startAtEnd)
    ensures forall i :: 0 <= i < |[pass] + after| ==>
      Fits(Run(u, ([pass] + after)[..i], startAtEnd), ([pass] + after)[i], startAtEnd)
    ensures Run(u, [pass] + after, startAtEnd) == Run(Step(u, pass, startAtEnd), after, startAtEnd)
  {
    hide Step, Fits;
    var v := Step(u, pass, startAtEnd);
    assert [pass][..0] == [] && Run(u, [], startAtEnd) == u && Run(u, [pass], startAtEnd) == v;
    RunConcat(u, [pass], after, startAtEnd);
    forall i | 0 <= i < |[pass] + after|
      ensures Fits(Run(u, ([pass] + after)[..i], startAtEnd), ([pass] + after)[i], startAtEnd)
    {
      if i == 0 {
        assert ([pass] + after)[..0] == [];
      } else {
        assert ([pass] + after)[..i] == [pass] + after[..i - 1];
        RunConcat(u, [pass], after[..i - 1], startAtEnd);
      }
    }
  }

  /** A truncation that is not seen: the file has grown again to what was read before the next pass.
      The fragment held of the old content is joined to the new one, which makes a line that never was,
      and a line of the new content is missed. */
  lemma RegrownIsJoined(x: byte, y: byte)
    requires IsText(x) && IsText(y)
    ensures Run(START, [Append([x]), Poll, Truncate([y, LF]), Poll], false).delivered == [[x]]
    ensures Lines([x]) == [] && Lines([y, LF]) == [[y]]
  {
    hide Lines, Rest, Run;
    LinesOfNothing();
    PushByte([], x);
    assert [] + [x] == [x];
    OneLine([], y);
    OneLine([], x);
    assert [] + [y, LF] == [y, LF] && [] + [y] == [y] && [] + [x, LF] == [x, LF];
    var t1 := Step(START, Append([x]), false);
    assert t1 == START.(content := [x]);
    var t2 := Step(t1, Poll, false);
    assert Rest([x]) == [x] && Lines([x]) == [];
    assert [x][0..] == [x];
    assert t2 == t1.(live := Some(FileState(0, 1, [x])), saved := Some(Saved(0, 0)));
    var t3 := Step(t2, Truncate([y, LF]), false);
    assert t3.live == t2.live && t3.content == [y, LF] && t3.delivered == [];
    assert Prefix([y, LF], 2) == [y, LF] && [x] + [y, LF][1..] == [x, LF];
    FourSteps(Append([x]), Poll, Truncate([y, LF]), Poll, false);
  }

  /** Nor is one that happens while no tailer runs, although the file is shorter than the offset saved: the
      restarted tailer goes on at the end of the new content, and never delivers it. */
  lemma TruncatedRestartSkips(x: byte, y: byte)
    requires IsText(x) && IsText(y)
    ensures Run(START, [Append([x, x, LF]), Poll, Restart, Truncate([y, LF]), Poll], false).delivered == [[x, x]]
    ensures Lines([y, LF]) == [[y]]
  {
    hide Lines, Rest, Run;
    LinesOfNothing();
    OneLine([], y);
    OneLine([x], x);
    assert [] + [y, LF] == [y, LF] && [] + [y] == [y] && [x] + [x, LF] == [x, x, LF] && [x] + [x] == [x, x];
    PushByte([x, x], LF);
    assert [x, x] + [LF] == [x, x, LF] && Rest([x, x, LF]) == [];
    var t1 := Step(START, Append([x, x, LF]), false);
    assert t1 == START.(content := [x, x, LF]);
    var t2 := Step(t1, Poll, false);
    assert [x, x, LF][0..] == [x, x, LF] && [] + [x, x, LF] == [x, x, LF];
    assert t2 == t1.(live := Some(FileState(0, 3, [])), saved := Some(Saved(0, 3)), delivered := [[x, x]]);
    var t3 := Step(t2, Restart, false);
    assert t3 == t2.(live := None);
    var t4 := Step(t3, Truncate([y, LF]), false);
    assert t4.live == None && t4.saved == Some(Saved(0, 3)) && t4.content == [y, LF] && t4.delivered == [[x, x]];
    PassDelivers(t4, Poll, false);
    FourSteps(Append([x, x, LF]), Poll, Restart, Truncate([y, LF]), false);
    var four := [Append([x, x, LF]), Poll, Restart, Truncate([y, LF])];
    RunSnoc(four, Poll, false);
    assert four + [Poll] == [Append([x, x, LF]), Poll, Restart, Truncate([y, LF]), Poll];
  }

  // ----- with crashes -----

  /** Every line dealt with in earlier content, and from the origin on every line before the position
      reached, and before the saved one, was delivered at least as often as it occurs. */
  ghost predicate Covered(t: Tail) {
    && t.origin <= Consumed(t) <= |t.content|
    && multiset(t.earlier + Lines(t.content[t.origin..Consumed(t)])) <= multiset(t.delivered)
    && (t.live.Some? && !t.oldLive ==>
      && t.live.value.inode == t.inode
      && t.live.value.pending == Rest(t.content[t.origin..Consumed(t)]))
    && (t.live.Some? && t.oldLive && t.saved.Some? ==> t.oldSaved)
    && (t.saved.Some? && !t.oldSaved ==>
      && t.saved.value.inode == t.inode
      && t.origin <= t.saved.value.offset <= Consumed(t)
      && Rest(t.content[t.origin..t.saved.value.offset]) == []
      && multiset(t.earlier + Lines(t.content[t.origin..t.saved.value.offset])) <= multiset(t.delivered))
  }

  lemma StepCovered(t: Tail, e: Event, startAtEnd: bool)
    requires Covered(t) && Fits(t, e, startAtEnd) && Undelivered(t, e, startAtEnd) == 0
    ensures Covered(Step(t, e, startAtEnd))
    ensures IsPass(e) ==> Consumed(Step(t, e, startAtEnd)) == |t.content|
  {
    hide Lines, Rest, ReadTo;
    match e {
      case Append(bytes) =>
        GrownPrefix(t.content, bytes, t.origin, Consumed(t));
        if t.saved.Some? && !t.oldSaved {
          GrownPrefix(t.content, bytes, t.origin, t.saved.value.offset);
        }
      case Rotate(inode, bytes) => ReplacedCovered(t, inode, bytes);
      case Truncate(bytes) => ReplacedCovered(t, t.inode, bytes);
      case Restart => StoppedCovered(t);
      case Crash(n) => MoreDelivered(t, Step(t, e, startAtEnd));
      case Poll => ReadCovered(t, |t.content|, startAtEnd);
      case Scan => ScanCovered(t, startAtEnd);
      case Cancel(before, end, n) =>
        var u := ReadTo(t, before, startAtEnd);
        ReadCovered(t, before, startAtEnd);
        ReadCovered(u, end, startAtEnd);
        StoppedCovered(ReadTo(u, end, startAtEnd));
        CancelIsRead(t, before, end, n, startAtEnd);
    }
  }

  lemma ReplacedCovered(t: Tail, inode: int, bytes: Bytes)
    requires Covered(t)
    ensures Covered(Replaced(t, inode, bytes))
  {
    NothingYet(bytes);
    assert bytes[0..0] == [] && AllDue(t) + [] == AllDue(t);
  }

  lemma CancelIsRead(t: Tail, before: nat, end: nat, n: nat, startAtEnd: bool)
    requires Undelivered(t, Cancel(before, end, n), startAtEnd) == 0
    ensures Step(t, Cancel(before, end, n), startAtEnd) == Stopped(ReadTo(ReadTo(t, before, startAtEnd), end, startAtEnd))
  {
    hide Advance, Emitted, Clip, Prefix;
  }

  lemma StoppedCovered(t: Tail)
    requires Covered(t)
    ensures Covered(Stopped(t))
  {
    if t.live.Some? && !t.oldLive {
      hide Lines, Rest;
      var seen := Prefix(t.content, Consumed(t));
      SlicesOfPrefix(t.content, Consumed(t), t.origin, Consumed(t));
      BoundaryOfTail(seen, t.origin, t.live.value);
      SlicesOfPrefix(t.content, Consumed(t), t.origin, Committed(t.live.value));
    }
  }

  lemma ResumedCovered(t: Tail, startAtEnd: bool)
    requires Covered(t) && !Joins(t, startAtEnd)
    ensures var s := Resumed(t, startAtEnd);
      var origin := if Resets(t) then s.readPos else t.origin;
      && origin <= s.readPos <= |t.content| && s.inode == t.inode
      && s.pending == Rest(t.content[origin..s.readPos])
      && multiset(t.earlier + Lines(t.content[origin..s.readPos])) <= multiset(t.delivered)
  {
    var s := Resumed(t, startAtEnd);
    LinesOfNothing();
    hide Lines, Rest;
    assert t.content[t.origin..t.origin] == [] && t.content[s.readPos..s.readPos] == [];
  }

  lemma ReadCovered(t: Tail, pos: nat, startAtEnd: bool)
    requires Covered(t) && !Joins(t, startAtEnd)
    ensures Covered(ReadTo(t, pos, startAtEnd))
    ensures Consumed(ReadTo(t, pos, startAtEnd)) == Clip(t, pos, startAtEnd) && !Joins(ReadTo(t, pos, startAtEnd), startAtEnd)
  {
    hide Lines, Rest, Reconcile, Emitted;
    ResumedCovered(t, startAtEnd);
    var s := Resumed(t, startAtEnd);
    var p := Clip(t, pos, startAtEnd);
    var seen := Prefix(t.content, p);
    var next := ReadTo(t, pos, startAtEnd);
    SlicesOfPrefix(t.content, p, next.origin, s.readPos);
    AdvanceReads(seen, next.origin, s);
    BoundaryOfTail(seen, next.origin, Advance(s, seen));
    SlicesOfPrefix(t.content, p, next.origin, Committed(Advance(s, seen)));
    MoreOnBoth(t.earlier, Lines(t.content[next.origin..s.readPos]), Emitted(s, seen), t.delivered);
  }

  lemma MoreOnBoth(earlier: seq<Bytes>, lines: seq<Bytes>, more: seq<Bytes>, delivered: seq<Bytes>)
    requires multiset(earlier + lines) <= multiset(delivered)
    ensures multiset(earlier + (lines + more)) <= multiset(delivered + more)
  {
    SeqAssoc(earlier, lines, more);
    assert multiset(earlier + lines + more) == multiset(earlier + lines) + multiset(more);
    assert multiset(delivered + more) == multiset(delivered) + multiset(more);
  }

  lemma ScanCovered(t: Tail, startAtEnd: bool)
    requires Covered(t) && !Joins(t, startAtEnd)
    ensures Covered(Step(t, Scan, startAtEnd)) && Consumed(Step(t, Scan, startAtEnd)) == |t.content|
  {
    hide Lines, Rest, Advance, Emitted, Prefix;
    ReadCovered(t, |t.content|, startAtEnd);
    if ChunkLines(t, |t.content|, startAtEnd) == [] {
      assert ReadTo(t, |t.content|, startAtEnd).delivered == t.delivered;
    }
  }

  lemma MoreDelivered(t: Tail, next: Tail)
    requires Covered(t) && t.delivered <= next.delivered
    requires next == t.(live := None, delivered := next.delivered)
    ensures Covered(next)
  {
    hide Rest;
    assert next.delivered == t.delivered + next.delivered[|t.delivered|..];
    assert multiset(next.delivered) == multiset(t.delivered) + multiset(next.delivered[|t.delivered|..]);
    assert t.content[t.origin..t.origin] == [] && Lines([]) == [];
    assert t.earlier + [] == t.earlier && multiset(t.earlier) <= multiset(t.earlier + Lines(t.content[t.origin..Consumed(t)]));
  }

  lemma PassCovers(t: Tail, e: Event, startAtEnd: bool)
    requires IsPass(e) && Covered(Step(t, e, startAtEnd)) && Consumed(Step(t, e, startAtEnd)) == |t.content|
    ensures var next := Step(t, e, startAtEnd);
      multiset(next.earlier + Lines(next.content[next.origin..])) <= multiset(next.delivered)
  {
    hide Lines, Rest, Advance, Emitted, Clip, Prefix;
    var next := Step(t, e, startAtEnd);
    assert next.content[next.origin..|next.content|] == next.content[next.origin..];
  }

  /** Crashes may repeat lines but never miss one after the origin, nor do cancellations that hit between
      two lines of different chunks: after any such run that ends in a pass, each line dealt with in
      earlier content, and each from the origin on, has been delivered at least as often as it occurs. */
  lemma {:induction false} CrashMissesNothing(events: seq<Event>, startAtEnd: bool)
    requires NeverJoins(events, startAtEnd) && Lossless(events, startAtEnd)
    ensures Covered(Run(START, events, startAtEnd))
    ensures events != [] && IsPass(events[|events| - 1]) ==>
      var t := Run(START, events, startAtEnd);
      multiset(t.earlier + Lines(t.content[t.origin..])) <= multiset(t.delivered)
  {
    if events == [] {
      NothingYet(START.content);
      assert START.content[0..0] == [] && START.earlier + [] == [];
    } else {
      hide Step, Undelivered, Lossless, Covered, Consumed, Lines, NeverJoins, Fits;
      var front := events[..|events| - 1];
      LosslessSnoc(events, startAtEnd);
      NeverJoinsSnoc(events, startAtEnd);
      CrashMissesNothing(front, startAtEnd);
      var before := Run(START, front, startAtEnd);
      StepCovered(before, events[|events| - 1], startAtEnd);
      if IsPass(events[|events| - 1]) {
        PassCovers(before, events[|events| - 1], startAtEnd);
      }
    }
  }

  /** Over one growing file read from its start, crashes included, each of its lines is delivered at least
      as often as it occurs. */
  lemma GrowingMissesNothing(events: seq<Event>)
    requires (forall e :: e in events ==> !Replaces(e)) && Lossless(events, false)
    requires events != [] && IsPass(events[|events| - 1])
    ensures var t := Run(START, events, false); multiset(Lines(t.content)) <= multiset(t.delivered)
  {
    hide Run, Lossless, NeverJoins, Covered, Lines;
    NeverReplaced(events, false);
    CrashMissesNothing(events, false);
    var t := Run(START, events, false);
    assert t.content[0..] == t.content && [] + Lines(t.content) == Lines(t.content);
  }

  /** Nor does a rotation miss any, crashes included, once the inode is a new one. */
  lemma RotatedMissesNothing(before: seq<Event>, inode: int, bytes: Bytes, after: seq<Event>)
    requires NeverJoins(before, false) && (forall e :: e in after ==> !Replaces(e))
    requires after != [] && IsPass(after[|after| - 1])
    requires var r := Run(START, before, false);
      (r.live.Some? ==> r.live.value.inode != inode) && (r.saved.Some? ==> r.saved.value.inode != inode)
    requires Lossless(before + [Rotate(inode, bytes)] + after, false)
    ensures var t := Run(START, before + [Rotate(inode, bytes)] + after, false);
      multiset(Lines(t.content)) <= multiset(t.delivered)
  {
    hide Lines, Rest, Run, Step, Lossless, NeverJoins, Fits, Anew, Covered;
    var e := Rotate(inode, bytes);
    var all := before + [e] + after;
    RunSnoc(before, e, false);
    RotatedAnew(Run(START, before, false), inode, bytes);
    AnewRun(Run(START, before + [e], false), after);
    NeverJoinsReplace(before, e, false);
    NeverJoinsConcat(before + [e], after, false);
    RunConcat(START, before + [e], after, false);
    CrashMissesNothing(all, false);
    assert all[|all| - 1] == after[|after| - 1];
    var t := Run(START, all, false);
    AnewOrigin(t);
    assert t.content[0..] == t.content;
    assert multiset(t.earlier + Lines(t.content)) == multiset(t.earlier) + multiset(Lines(t.content));
  }

  lemma AnewOrigin(t: Tail)
    requires Anew(t)
    ensures t.origin == 0
  {}

  // ----- starting at the end -----

  /** Once an offset in the present content is saved, the origin never moves again, whatever happens to the
      tailer. */
  lemma {:induction false} OriginStays(t: Tail, events: seq<Event>, startAtEnd: bool)
    requires t.saved.Some? && !t.oldLive && !t.oldSaved && forall e :: e in events ==> !Replaces(e)
    ensures var next := Run(t, events, startAtEnd);
      next.saved.Some? && !next.oldLive && !next.oldSaved && next.origin == t.origin
  {
    if events != [] {
      hide Step;
      OriginStays(t, events[..|events| - 1], startAtEnd);
      OriginStep(Run(t, events[..|events| - 1], startAtEnd), events[|events| - 1], startAtEnd);
    }
  }

  lemma OriginStep(t: Tail, e: Event, startAtEnd: bool)
    requires t.saved.Some? && !t.oldLive && !t.oldSaved && !Replaces(e)
    ensures var next := Step(t, e, startAtEnd);
      next.saved.Some? && !next.oldLive && !next.oldSaved && next.origin == t.origin
  {
    hide Lines, Rest, Advance, Emitted, Clip, Prefix, Reconcile;
  }

  lemma RunSnoc(events: seq<Event>, e: Event, startAtEnd: bool)
    ensures Run(START, events + [e], startAtEnd) == Step(Run(START, events, startAtEnd), e, startAtEnd)
    ensures Run(START, [], startAtEnd) == START
  {
    hide Step;
    assert (events + [e])[..|events + [e]| - 1] == events;
  }

  lemma FourSteps(e0: Event, e1: Event, e2: Event, e3: Event, startAtEnd: bool)
    ensures Run(START, [e0, e1, e2, e3], startAtEnd)
      == Step(Step(Step(Step(START, e0, startAtEnd), e1, startAtEnd), e2, startAtEnd), e3, startAtEnd)
  {
    hide Step, Run;
    RunSnoc([], e0, startAtEnd);
    RunSnoc([e0], e1, startAtEnd);
    RunSnoc([e0, e1], e2, startAtEnd);
    RunSnoc([e0, e1, e2], e3, startAtEnd);
    assert [] + [e0] == [e0] && [e0] + [e1] == [e0, e1];
    assert [e0, e1] + [e2] == [e0, e1, e2] && [e0, e1, e2] + [e3] == [e0, e1, e2, e3];
  }

  /** Before that a crash moves it: the first scan delivers nothing and so saves nothing, a line arrives,
      the process dies before it delivers that, and the next one starts after it. */
  lemma CrashAtEndLosesLine(x: byte, line: Bytes)
    requires IsText(x) && line == [x, LF]
    ensures var t := Run(START, [Scan, Append(line), Crash(0), Scan], true);
      t.delivered == [] && t.content == line && t.origin == 2 && Lines(line) == [[x]]
  {
    NothingYet([]);
    OneLine([], x);
    assert [] + line == line && [] + [x] == [x];
    hide Lines, Rest, Run;
    var e0, e1, e2, e3 := Scan, Append(line), Crash(0), Scan;
    var t1 := Step(START, e0, true);
    assert t1 == START.(live := Some(FileState(0, 0, [])));
    var t2 := Step(t1, e1, true);
    assert t2 == t1.(content := line);
    var t3 := Step(t2, e2, true);
    assert t3 == START.(content := line);
    assert Step(t3, e3, true) == t3.(live := Some(FileState(0, 2, [])), origin := 2);
    FourSteps(e0, e1, e2, e3, true);
  }

  /** A tailer that starts at the end of `before` delivers the lines of what follows it. Those are the
      lines the file gains, whatever follows, if and only if `before` does not stop within a line;
      otherwise the first of them may be the tail of a line. */
  lemma StartAtEndExactly(before: Bytes)
    ensures (forall more :: Lines(before + more) == Lines(before) + Lines(more)) <==> Rest(before) == []
  {
    hide Lines, Rest;
    if Rest(before) == [] {
      forall more
        ensures Lines(before + more) == Lines(before) + Lines(more)
      {
        LinesAppend(before, more);
        assert [] + more == more;
      }
    } else {
      var x: byte := 0x61;
      TornStart(before, x);
    }
  }

  lemma TornStart(before: Bytes, x: byte)
    requires IsText(x) && Rest(before) != []
    ensures Lines(before + [x, LF]) != Lines(before) + Lines([x, LF])
  {
    var more: Bytes := [x, LF];
    LinesAppend(before, more);
    RestNoLf(before);
    OneLine([], x);
    OneLine(Rest(before), x);
    assert [] + more == more && [] + [x] == [x];
    hide Lines, Rest;
    assert |Rest(before) + [x]| > |[x]|;
    assert Lines(before + more)[|Lines(before)|] == Rest(before) + [x];
    assert (Lines(before) + Lines(more))[|Lines(before)|] == [x];
  }

  lemma OneLine(start: Bytes, x: byte)
    requires IsText(x) && LF !in start
    ensures Lines(start + [x, LF]) == [start + [x]]
  {
    NoLf(start);
    PushByte(start, x);
    PushByte(start + [x], LF);
    assert start + [x] + [LF] == start + [x, LF];
  }

  /** What such a tailer delivers. */
  lemma StartedAtEnd(before: Bytes, more: Bytes)
    ensures Run(START, [Append(before), Poll, Append(more), Poll], true).delivered == Lines(more)
  {
    hide Lines, Rest, Run;
    var e0, e1, e2 := Append(before), Poll, Append(more);
    var t1 := Step(START, e0, true);
    assert t1 == START.(content := before);
    var t2 := Step(t1, e1, true);
    assert t2 == t1.(live := Some(FileState(0, |before|, [])), saved := Some(Saved(0, |before|)), origin := |before|);
    var t3 := Step(t2, e2, true);
    NothingYet([]);
    assert (before + more)[|before|..] == more && [] + more == more;
    assert more == [] ==> Lines(more) == [];
    assert Step(t3, Poll, true).delivered == Lines(more);
    FourSteps(e0, e1, e2, e1, true);
  }
}
