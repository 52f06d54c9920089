/** RFC 6587 stream framing, ulpf/ingest/syslog_tcp.py, and the octet-counting sender of
    bench/replay.py.

    `Decode` reads a complete byte stream. `ReadFrames` is the incremental reader; its contract
    is that it yields what `Decode` yields on the concatenation of whatever chunks arrive. */
module SyslogTcp {
  import opened Ascii
  import opened Core

  /** Longest decimal string CPython 3.11 converts to an int; beyond it, ValueError. */
  const MAX_INT_DIGITS := 4300

  datatype FrameError = Oversize(declared: nat) | CountTooLong

  datatype Next = NeedMore | Frame(body: Bytes, rest: Bytes) | Fail(error: FrameError)

  /** The frames yielded, and the error that ended the stream early, if any. */
  datatype Outcome = Outcome(frames: seq<Bytes>, error: Option<FrameError>)

  // ----- one frame -----

  function ReadOctetBody(buf: Bytes, space: nat, limit: int): (next: Next)
    requires space < |buf| && forall i :: 0 <= i < space ==> IsDigit(buf[i])
    ensures next.Frame? ==> |next.body| + |next.rest| < |buf| - space
  {
    if space > MAX_INT_DIGITS then Fail(CountTooLong)
    else
      var length := Number(buf[..space]);
      var start := space + 1;
      if length > limit then Fail(Oversize(length))
      else if |buf| - start < length then NeedMore
      else Frame(buf[start..start + length], buf[start + length..])
  }

  function TryNewline(buf: Bytes): (next: Next)
    ensures next.Frame? ==> |next.body| + |next.rest| < |buf|
  {
    var i := Find(buf, LF);
    if i == |buf| then NeedMore
    else if i > 0 && buf[i - 1] == CR then Frame(buf[..i - 1], buf[i + 1..])
    else Frame(buf[..i], buf[i + 1..])
  }

  /** Does the buffer start with digits and a space? */
  predicate StartsWithCount(buf: Bytes) {
    var i := DigitRun(buf);
    0 < i < |buf| && buf[i] == SPACE
  }

  function NextFrame(buf: Bytes, limit: int): (next: Next)
    ensures next.Frame? ==> |next.body| + |next.rest| < |buf|
  {
    if buf == [] then NeedMore
    else if DigitRun(buf) == |buf| then NeedMore
    else if StartsWithCount(buf) then ReadOctetBody(buf, DigitRun(buf), limit)
    else TryNewline(buf)
  }

  /** `buf` without trailing CR and LF bytes. */
  function StripEnd(buf: Bytes): (s: Bytes)
    ensures s <= buf
    ensures s != [] ==> s[|s| - 1] != CR && s[|s| - 1] != LF
    ensures forall i :: |s| <= i < |buf| ==> buf[i] == CR || buf[i] == LF
  {
    if buf == [] then []
    else if buf[|buf| - 1] == CR || buf[|buf| - 1] == LF then StripEnd(buf[..|buf| - 1])
    else buf
  }

  function FinalFrame(buf: Bytes): Option<Bytes> {
    if buf == [] || DigitRun(buf) == |buf| || StartsWithCount(buf) then None
    else if StripEnd(buf) == [] then None
    else Some(StripEnd(buf))
  }

  function OneFrame(body: Bytes): seq<Bytes> {
    if body == [] then [] else [body]
  }

  /** The frames of a complete stream. */
  function Decode(stream: Bytes, limit: int): Outcome
    decreases |stream|
  {
    match NextFrame(stream, limit)
    case Frame(body, rest) =>
      var later := Decode(rest, limit);
      Outcome(OneFrame(body) + later.frames, later.error)
    case Fail(error) => Outcome([], Some(error))
    case NeedMore =>
      Outcome(if FinalFrame(stream).Some? then [FinalFrame(stream).value] else [], None)
  }

  /** The bytes a reader delivers before end of stream, which an empty read signals. */
  function Stream(chunks: seq<Bytes>): Bytes {
    if chunks == [] || chunks[0] == [] then [] else chunks[0] + Stream(chunks[1..])
  }

  // ----- the incremental reader -----

  method CountDigits(buf: Bytes) returns (i: nat)
    ensures i == DigitRun(buf)
  {
    i := 0;
    while i < |buf| && IsDigit(buf[i])
      invariant 0 <= i <= |buf|
      invariant i + DigitRun(buf[i..]) == DigitRun(buf)
    {
      assert buf[i..][1..] == buf[i + 1..];
      i := i + 1;
    }
  }

  method PopFrame(buf: Bytes, limit: int) returns (next: Next)
    ensures next == NextFrame(buf, limit)
  {
    if buf == [] {
      return NeedMore;
    }
    if IsDigit(buf[0]) {
      var i := CountDigits(buf);
      if i == |buf| {
        return NeedMore;
      }
      if buf[i] == SPACE {
        return ReadOctetBody(buf, i, limit);
      }
    }
    return TryNewline(buf);
  }

  method LastFrame(buf: Bytes) returns (tail: Option<Bytes>)
    ensures tail == FinalFrame(buf)
    ensures tail.Some? ==>
      && tail.value <= buf && tail.value != []
      && tail.value[|tail.value| - 1] != CR && tail.value[|tail.value| - 1] != LF
    ensures !StartsWithCount(buf) && DigitRun(buf) < |buf| ==>
      forall i :: (if tail.Some? then |tail.value| else 0) <= i < |buf| ==> buf[i] == CR || buf[i] == LF
    ensures StartsWithCount(buf) || DigitRun(buf) == |buf| ==> tail == None
  {
    if buf == [] {
      return None;
    }
    if IsDigit(buf[0]) {
      var i := CountDigits(buf);
      if i == |buf| || buf[i] == SPACE {
        return None;
      }
    }
    var stripped := StripEnd(buf);
    return if stripped == [] then None else Some(stripped);
  }

  /** Chunk independence: the outcome is a function of the concatenated bytes alone. */
  method ReadFrames(chunks: seq<Bytes>, limit: int) returns (out: Outcome)
    ensures out == Decode(Stream(chunks), limit)
  {
    hide Decode, NextFrame, FinalFrame, StartsWithCount, DigitRun;
    var frames: seq<Bytes> := [];
    var buf: Bytes := [];
    var k := 0;
    assert chunks[0..] == chunks && buf + Stream(chunks) == Stream(chunks);
    while true
      invariant 0 <= k <= |chunks|
      invariant var later := Decode(buf + Stream(chunks[k..]), limit);
        Outcome(frames + later.frames, later.error) == Decode(Stream(chunks), limit)
      decreases |chunks| - k, |buf|
    {
      var next := PopFrame(buf, limit);
      if next.Frame? {
        FrameDecided(buf, Stream(chunks[k..]), limit, frames);
        if next.body != [] {
          frames := frames + [next.body];
        }
        buf := next.rest;
      } else if next.Fail? {
        FailDecided(buf, Stream(chunks[k..]), limit);
        assert frames + [] == frames;
        return Outcome(frames, Some(next.error));
      } else if k == |chunks| || chunks[k] == [] {
        assert buf + [] == buf;
        EndDecided(buf, limit);
        var tail := LastFrame(buf);
        assert frames + [] == frames;
        return Outcome(if tail.Some? then frames + [tail.value] else frames, None);
      } else {
        assert buf + (chunks[k] + Stream(chunks[k + 1..])) == (buf + chunks[k]) + Stream(chunks[k + 1..]);
        assert chunks[k..][1..] == chunks[k + 1..];
        buf := buf + chunks[k];
        k := k + 1;
      }
    }
  }

  function WithMore(next: Next, more: Bytes): Next {
    if next.Frame? then Frame(next.body, next.rest + more) else next
  }

  lemma OctetBodyStays(buf: Bytes, space: nat, more: Bytes, limit: int)
    requires space < |buf| && forall i :: 0 <= i < space ==> IsDigit(buf[i])
    requires !ReadOctetBody(buf, space, limit).NeedMore?
    ensures ReadOctetBody(buf + more, space, limit) == WithMore(ReadOctetBody(buf, space, limit), more)
  {
    assert (buf + more)[..space] == buf[..space];
    var start := space + 1;
    if ReadOctetBody(buf, space, limit).Frame? {
      var stop := start + Number(buf[..space]);
      assert (buf + more)[start..stop] == buf[start..stop];
      assert (buf + more)[stop..] == buf[stop..] + more;
    }
  }

  lemma NewlineStays(buf: Bytes, more: Bytes)
    requires !TryNewline(buf).NeedMore?
    ensures TryNewline(buf + more) == WithMore(TryNewline(buf), more)
  {
    FindStays(buf, more, LF);
    var j := Find(buf, LF);
    assert (buf + more)[j + 1..] == buf[j + 1..] + more;
    assert (buf + more)[..j] == buf[..j];
    if j > 0 {
      assert (buf + more)[..j - 1] == buf[..j - 1];
    }
  }

  /** A frame or an error decided on a buffer is not changed by bytes that arrive later. */
  lemma DecidedStaysDecided(buf: Bytes, more: Bytes, limit: int)
    requires !NextFrame(buf, limit).NeedMore?
    ensures NextFrame(buf + more, limit) == WithMore(NextFrame(buf, limit), more)
  {
    DigitRunStays(buf, more);
    if StartsWithCount(buf) {
      OctetBodyStays(buf, DigitRun(buf), more, limit);
    } else {
      NewlineStays(buf, more);
    }
  }

  lemma DecodeStep(stream: Bytes, limit: int, body: Bytes, rest: Bytes)
    requires NextFrame(stream, limit) == Frame(body, rest)
    ensures Decode(stream, limit).error == Decode(rest, limit).error
    ensures Decode(stream, limit).frames == OneFrame(body) + Decode(rest, limit).frames
  {}

  lemma FrameDecided(buf: Bytes, ahead: Bytes, limit: int, frames: seq<Bytes>)
    requires NextFrame(buf, limit).Frame?
    ensures var next := NextFrame(buf, limit);
      var later := Decode(next.rest + ahead, limit);
      && Decode(buf + ahead, limit).error == later.error
      && frames + Decode(buf + ahead, limit).frames
        == (if next.body != [] then frames + [next.body] else frames) + later.frames
  {
    var next := NextFrame(buf, limit);
    DecidedStaysDecided(buf, ahead, limit);
    DecodeStep(buf + ahead, limit, next.body, next.rest + ahead);
    RegroupFrames(frames, next.body, Decode(next.rest + ahead, limit).frames);
  }

  lemma FailDecided(buf: Bytes, ahead: Bytes, limit: int)
    requires NextFrame(buf, limit).Fail?
    ensures Decode(buf + ahead, limit) == Outcome([], Some(NextFrame(buf, limit).error))
  {
    hide NextFrame;
    DecidedStaysDecided(buf, ahead, limit);
  }

  lemma EndDecided(buf: Bytes, limit: int)
    requires NextFrame(buf, limit).NeedMore?
    ensures Decode(buf, limit) == Outcome(if FinalFrame(buf).Some? then [FinalFrame(buf).value] else [], None)
  {
    hide NextFrame, FinalFrame;
  }

  lemma RegroupFrames(frames: seq<Bytes>, body: Bytes, later: seq<Bytes>)
    ensures frames + (OneFrame(body) + later) == (if body != [] then frames + [body] else frames) + later
  {}

  // ----- encoders -----

  /** Section 3.4.1 of RFC 6587, or section 3.4.2 with LF or CR LF. */
  datatype Framing = Counted | Newline(cr: bool)

  datatype Message = Message(body: Bytes, framing: Framing)

  function Encode(m: Message): Bytes {
    match m.framing
    case Counted => Digits(|m.body|) + [SPACE] + m.body
    case Newline(cr) => m.body + (if cr then [CR, LF] else [LF])
  }

  function EncodeAll(ms: seq<Message>): Bytes {
    if ms == [] then [] else Encode(ms[0]) + EncodeAll(ms[1..])
  }

  function Bodies(ms: seq<Message>): seq<Bytes> {
    if ms == [] then [] else [ms[0].body] + Bodies(ms[1..])
  }

  /** What a message must satisfy to survive its framing. */
  predicate Encodable(m: Message, limit: int) {
    && m.body != []
    && match m.framing
       case Counted => |m.body| <= limit && |Digits(|m.body|)| <= MAX_INT_DIGITS
       case Newline(cr) =>
         LF !in m.body && !StartsWithCount(m.body) && (!cr ==> m.body[|m.body| - 1] != CR)
  }

  lemma NextOfCounted(body: Bytes, more: Bytes, limit: int)
    ensures var next := NextFrame(Encode(Message(body, Counted)) + more, limit);
      if |Digits(|body|)| > MAX_INT_DIGITS then next == Fail(CountTooLong)
      else if |body| > limit then next == Fail(Oversize(|body|))
      else next == Frame(body, more)
  {
    var digits := Digits(|body|);
    var stream := Encode(Message(body, Counted)) + more;
    assert stream == digits + ([SPACE] + body + more);
    DigitRunOf(digits, [SPACE] + body + more);
    assert stream[|digits|] == SPACE;
    assert stream[..|digits|] == digits;
    NumberOfDigits(|body|);
    var start := |digits| + 1;
    assert stream[start..start + |body|] == body;
    assert stream[start + |body|..] == more;
  }

  lemma NextOfNewline(body: Bytes, cr: bool, more: Bytes, limit: int)
    requires LF !in body && !StartsWithCount(body) && body != []
    ensures NextFrame(Encode(Message(body, Newline(cr))) + more, limit)
      == Frame(if !cr && body[|body| - 1] == CR then body[..|body| - 1] else body, more)
  {
    var line := if cr then body + [CR] else body;
    var stream := Encode(Message(body, Newline(cr))) + more;
    var tail := (if cr then [CR, LF] else [LF]) + more;
    assert stream == body + tail;
    ContentStays(body, tail);
    assert stream == line + [LF] + more;
    FindFirst(line, more, LF);
    assert stream[|line| + 1..] == more;
    assert stream[..|line|] == line;
    assert cr ==> stream[..|line| - 1] == body;
    assert !cr ==> stream[..|line| - 1] == body[..|body| - 1];
  }

  /** Line content stays line content when its line ending follows. */
  lemma ContentStays(body: Bytes, tail: Bytes)
    requires !StartsWithCount(body) && tail != [] && (tail[0] == CR || tail[0] == LF)
    ensures DigitRun(body + tail) < |body + tail| && !StartsWithCount(body + tail)
  {
    var i := DigitRun(body);
    if i < |body| {
      DigitRunStays(body, tail);
    } else {
      DigitRunOf(body, tail);
    }
  }

  /** Messages are read off one by one, and what follows them is read as if it stood alone. */
  lemma {:induction false} MixedThenTail(ms: seq<Message>, tail: Bytes, limit: int)
    requires forall m :: m in ms ==> Encodable(m, limit)
    ensures Decode(EncodeAll(ms) + tail, limit)
         == Outcome(Bodies(ms) + Decode(tail, limit).frames, Decode(tail, limit).error)
  {
    hide NextFrame, Encode, FinalFrame, StartsWithCount, Digits;
    if ms == [] {
      assert EncodeAll(ms) + tail == tail && Bodies(ms) + Decode(tail, limit).frames == Decode(tail, limit).frames;
    } else {
      hide NextFrame, Encode;
      assert ms[0] in ms;
      var later := EncodeAll(ms[1..]) + tail;
      SeqAssoc(Encode(ms[0]), EncodeAll(ms[1..]), tail);
      NextOfEncodable(ms[0], later, limit);
      MixedThenTail(ms[1..], tail, limit);
      DecodeStep(EncodeAll(ms) + tail, limit, ms[0].body, later);
      SeqAssoc([ms[0].body], Bodies(ms[1..]), Decode(tail, limit).frames);
    }
  }

  lemma NextOfEncodable(m: Message, more: Bytes, limit: int)
    requires Encodable(m, limit)
    ensures NextFrame(Encode(m) + more, limit) == Frame(m.body, more)
  {
    match m.framing {
      case Counted => NextOfCounted(m.body, more, limit);
      case Newline(cr) => NextOfNewline(m.body, cr, more, limit);
    }
  }

  /** Round trip: any mix of framings on one connection decodes to the messages sent. */
  lemma MixedRoundTrip(ms: seq<Message>, limit: int)
    requires forall m :: m in ms ==> Encodable(m, limit)
    ensures Decode(EncodeAll(ms), limit) == Outcome(Bodies(ms), None)
  {
    MixedThenTail(ms, [], limit);
    assert EncodeAll(ms) + [] == EncodeAll(ms) && Decode([], limit) == Outcome([], None);
    assert Bodies(ms) + [] == Bodies(ms);
  }

  // ----- what is left at the end of the stream -----

  /** Does the buffer start with one or more digits and a space? Spelled out. */
  predicate CountAhead(buf: Bytes) {
    exists n :: 0 < n < |buf| && buf[n] == SPACE && forall i :: 0 <= i < n ==> IsDigit(buf[i])
  }

  predicate AllDigits(buf: Bytes) {
    forall i :: 0 <= i < |buf| ==> IsDigit(buf[i])
  }

  lemma CountAheadExactly(buf: Bytes)
    ensures CountAhead(buf) <==> StartsWithCount(buf)
    ensures AllDigits(buf) <==> DigitRun(buf) == |buf|
  {
    if CountAhead(buf) {
      var n :| 0 < n < |buf| && buf[n] == SPACE && forall i :: 0 <= i < n ==> IsDigit(buf[i]);
      assert DigitRun(buf) == n;
    }
  }

  /** A message without its line end: trailing CR bytes are stripped, and nothing else is. */
  lemma UnterminatedStripped(body: Bytes, crs: Bytes, limit: int)
    requires LF !in body && (body != [] ==> body[|body| - 1] != CR) && forall i :: 0 <= i < |crs| ==> crs[i] == CR
    requires !CountAhead(body + crs) && !AllDigits(body + crs)
    ensures Decode(body + crs, limit) == Outcome(if body == [] then [] else [body], None)
  {
    var buf := body + crs;
    CountAheadExactly(buf);
    assert LF !in buf;
    assert Find(buf, LF) == |buf|;
    assert StripEnd(buf) == body by {
      StripEndOf(body, crs);
    }
  }

  lemma {:induction false} StripEndOf(body: Bytes, ends: Bytes)
    requires body != [] ==> body[|body| - 1] != CR && body[|body| - 1] != LF
    requires forall i :: 0 <= i < |ends| ==> ends[i] == CR || ends[i] == LF
    ensures StripEnd(body + ends) == body
    decreases |ends|
  {
    var buf := body + ends;
    if ends == [] {
      assert buf == body;
    } else {
      assert buf[|buf| - 1] == ends[|ends| - 1];
      assert buf[..|buf| - 1] == body + ends[..|ends| - 1];
      StripEndOf(body, ends[..|ends| - 1]);
    }
  }

  /** After any messages, the end of the stream delivers one that lacks its line end, and cuts off
      only its trailing CR bytes. */
  lemma MixedThenUnterminated(ms: seq<Message>, body: Bytes, crs: Bytes, limit: int)
    requires forall m :: m in ms ==> Encodable(m, limit)
    requires LF !in body && (body != [] ==> body[|body| - 1] != CR) && forall i :: 0 <= i < |crs| ==> crs[i] == CR
    requires !CountAhead(body + crs) && !AllDigits(body + crs)
    ensures Decode(EncodeAll(ms) + (body + crs), limit) == Outcome(Bodies(ms) + (if body == [] then [] else [body]), None)
  {
    hide CountAhead, AllDigits, Decode, Encodable;
    UnterminatedStripped(body, crs, limit);
    MixedThenTail(ms, body + crs, limit);
  }

  /** Exactly when a message without any line end comes back unchanged, whatever came before. */
  lemma UnterminatedExactly(ms: seq<Message>, tail: Bytes, limit: int)
    requires forall m :: m in ms ==> Encodable(m, limit)
    ensures Decode(EncodeAll(ms) + tail, limit) == Outcome(Bodies(ms) + [tail], None) <==>
      && tail != [] && LF !in tail && tail[|tail| - 1] != CR
      && !CountAhead(tail) && !AllDigits(tail)
  {
    hide Encodable, EncodeAll, CountAhead, AllDigits, Decode, Bodies;
    MixedThenTail(ms, tail, limit);
    AloneExactly(tail, limit);
    var out := Decode(tail, limit);
    assert (Bodies(ms) + out.frames)[|Bodies(ms)|..] == out.frames;
    assert (Bodies(ms) + [tail])[|Bodies(ms)|..] == [tail];
  }

  lemma AloneExactly(tail: Bytes, limit: int)
    ensures Decode(tail, limit) == Outcome([tail], None) <==>
      && tail != [] && LF !in tail && tail[|tail| - 1] != CR
      && !CountAhead(tail) && !AllDigits(tail)
  {
    CountAheadExactly(tail);
    var next := NextFrame(tail, limit);
    if next.Frame? {
      assert Find(tail, LF) < |tail| || StartsWithCount(tail);
      if tail in Decode(tail, limit).frames && tail !in OneFrame(next.body) {
        FramesFit(next.rest, limit, tail);
      }
      assert tail !in Decode(tail, limit).frames;
      assert tail in [tail];
    } else if tail != [] && LF !in tail && tail[|tail| - 1] != CR && !CountAhead(tail) && !AllDigits(tail) {
      assert tail + [] == tail;
      UnterminatedStripped(tail, [], limit);
    }
  }

  /** A counted message that is cut short, within its count or within its body, delivers nothing. */
  lemma CutShortIsDropped(ms: seq<Message>, body: Bytes, n: nat, limit: int)
    requires forall m :: m in ms ==> Encodable(m, limit)
    requires Encodable(Message(body, Counted), limit) && n < |Encode(Message(body, Counted))|
    ensures Decode(EncodeAll(ms) + Encode(Message(body, Counted))[..n], limit) == Outcome(Bodies(ms), None)
  {
    hide EncodeAll, Bodies, Decode, Digits;
    var digits := Digits(|body|);
    var whole := Encode(Message(body, Counted));
    assert whole == digits + ([SPACE] + body);
    MixedThenTail(ms, whole[..n], limit);
    if n <= |digits| {
      assert whole[..n] == digits[..n];
      DigitsAreDropped(digits[..n], limit);
    } else {
      assert whole[..n] == digits + ([SPACE] + body[..n - |digits| - 1]);
      CutBodyIsDropped(body, n - |digits| - 1, limit);
    }
    assert Bodies(ms) + [] == Bodies(ms);
  }

  lemma DigitsAreDropped(digits: Bytes, limit: int)
    requires AllDigits(digits)
    ensures Decode(digits, limit) == Outcome([], None)
  {
    CountAheadExactly(digits);
  }

  lemma CutBodyIsDropped(body: Bytes, n: nat, limit: int)
    requires Encodable(Message(body, Counted), limit) && n < |body|
    ensures Decode(Digits(|body|) + ([SPACE] + body[..n]), limit) == Outcome([], None)
  {
    hide Digits, Number;
    var digits := Digits(|body|);
    var cut := digits + ([SPACE] + body[..n]);
    DigitRunOf(digits, [SPACE] + body[..n]);
    assert cut[|digits|] == SPACE && cut[..|digits|] == digits;
    NumberOfDigits(|body|);
    assert StartsWithCount(cut);
    assert NextFrame(cut, limit) == NeedMore;
  }

  /** Any digits announce a body, leading zeros included; an empty body is skipped. */
  lemma AnyCountReads(digits: Bytes, body: Bytes, more: Bytes, limit: int)
    requires 0 < |digits| <= MAX_INT_DIGITS && AllDigits(digits) && Number(digits) == |body| <= limit
    ensures Decode(digits + [SPACE] + body + more, limit)
      == Outcome((if body == [] then [] else [body]) + Decode(more, limit).frames, Decode(more, limit).error)
  {
    var stream := digits + [SPACE] + body + more;
    assert stream == digits + ([SPACE] + body + more);
    DigitRunOf(digits, [SPACE] + body + more);
    assert stream[|digits|] == SPACE && stream[..|digits|] == digits;
    var start := |digits| + 1;
    assert stream[start..start + |body|] == body;
    assert stream[start + |body|..] == more;
    DecodeStep(stream, limit, body, more);
  }

  /** Leading zeros do not change a count. */
  lemma {:induction false} ZerosCountNothing(k: nat, n: nat)
    ensures AllDigits(ZeroDigits(k) + Digits(n)) && Number(ZeroDigits(k) + Digits(n)) == n
  {
    NumberOfDigits(n);
    LeadingZeros(ZeroDigits(k), Digits(n));
  }

  function ZeroDigits(k: nat): (d: Bytes)
    ensures |d| == k && forall i :: 0 <= i < k ==> d[i] == ZERO
  {
    if k == 0 then [] else [ZERO] + ZeroDigits(k - 1)
  }

  lemma {:induction false} LeadingZeros(zeros: Bytes, digits: Bytes)
    requires AllDigits(digits) && forall i :: 0 <= i < |zeros| ==> zeros[i] == ZERO
    ensures AllDigits(zeros + digits) && Number(zeros + digits) == Number(digits)
    decreases |zeros| + |digits|
  {
    if digits != [] {
      LeadingZeros(zeros, digits[..|digits| - 1]);
      assert (zeros + digits)[..|zeros + digits| - 1] == zeros + digits[..|digits| - 1];
    } else if zeros != [] {
      LeadingZeros(zeros[..|zeros| - 1], digits);
      assert (zeros + digits)[..|zeros + digits| - 1] == zeros[..|zeros| - 1] + digits;
    }
  }

  // ----- counts that no int holds -----

  /** The undocumented error, exactly: a count of more digits than `int` converts. */
  lemma CountTooLongExactly(buf: Bytes, limit: int)
    ensures NextFrame(buf, limit) == Fail(CountTooLong) <==> StartsWithCount(buf) && DigitRun(buf) > MAX_INT_DIGITS
  {}

  /** What is left of a stream when no further frame can be taken from it. */
  function Left(stream: Bytes, limit: int): Bytes
    decreases |stream|
  {
    var next := NextFrame(stream, limit);
    if next.Frame? then Left(next.rest, limit) else stream
  }

  /** A connection ends with that error exactly when what follows its last whole frame starts with
      such a count. */
  lemma {:induction false} ConnectionFailsExactly(stream: Bytes, limit: int)
    ensures Decode(stream, limit).error == Some(CountTooLong)
      <==> StartsWithCount(Left(stream, limit)) && DigitRun(Left(stream, limit)) > MAX_INT_DIGITS
    decreases |stream|
  {
    CountTooLongExactly(stream, limit);
    var next := NextFrame(stream, limit);
    if next.Frame? {
      hide StartsWithCount, DigitRun, NextFrame;
      ConnectionFailsExactly(next.rest, limit);
      DecodeStep(stream, limit, next.body, next.rest);
    }
  }

  function Ones(n: nat): (d: Bytes)
    ensures |d| == n && forall i :: 0 <= i < n ==> IsDigit(d[i])
  {
    if n == 0 then [] else [ZERO + 1] + Ones(n - 1)
  }

  /** The input: after any messages, 4301 digits and a space. The messages are delivered, then the
      reader raises something other than the documented error. */
  lemma LongCountFails(ms: seq<Message>, more: Bytes, limit: int)
    requires forall m :: m in ms ==> Encodable(m, limit)
    ensures Decode(EncodeAll(ms) + (Ones(MAX_INT_DIGITS + 1) + ([SPACE] + more)), limit)
         == Outcome(Bodies(ms), Some(CountTooLong))
  {
    hide Ones, EncodeAll, Bodies;
    var tail := Ones(MAX_INT_DIGITS + 1) + ([SPACE] + more);
    DigitRunOf(Ones(MAX_INT_DIGITS + 1), [SPACE] + more);
    assert tail[MAX_INT_DIGITS + 1] == SPACE;
    CountTooLongExactly(tail, limit);
    MixedThenTail(ms, tail, limit);
    assert Bodies(ms) + [] == Bodies(ms);
  }

  // ----- the conditions are exact -----

  /** No frame is longer than the stream, and one that ends in LF only has shorter ones. */
  lemma {:induction false} FramesFit(stream: Bytes, limit: int, frame: Bytes)
    requires frame in Decode(stream, limit).frames
    ensures |frame| <= |stream|
    ensures stream != [] && stream[|stream| - 1] == LF ==> |frame| < |stream|
    decreases |stream|
  {
    var next := NextFrame(stream, limit);
    if next.Frame? && frame !in OneFrame(next.body) {
      FramesFit(next.rest, limit, frame);
    }
  }

  /** A newline-framed message comes back alone and unchanged exactly when it is encodable. */
  lemma NewlineExact(body: Bytes, limit: int)
    ensures Decode(body + [LF], limit) == Outcome([body], None)
      <==> Encodable(Message(body, Newline(false)), limit)
  {
    var m := Message(body, Newline(false));
    var stream := body + [LF];
    assert Encode(m) + [] == stream;
    var out := Decode(stream, limit);
    if Encodable(m, limit) {
      NextOfNewline(body, false, [], limit);
      assert Decode([], limit) == Outcome([], None);
      assert out == Outcome([body] + [], None);
    } else if body == [] || StartsWithCount(body) || LF in body {
      NotWhole(body, limit);
      assert body in [body];
    } else {
      NextOfNewline(body, false, [], limit);
      assert Decode([], limit) == Outcome([], None);
      assert out.frames == OneFrame(body[..|body| - 1]);
    }
  }

  /** An octet-counted message comes back exactly when its length is within the limit. */
  lemma CountedExact(body: Bytes, limit: int)
    requires body != []
    ensures Decode(Encode(Message(body, Counted)), limit) == Outcome([body], None)
      <==> Encodable(Message(body, Counted), limit)
  {
    assert Encode(Message(body, Counted)) + [] == Encode(Message(body, Counted));
    NextOfCounted(body, [], limit);
    assert Decode([], limit) == Outcome([], None);
  }

  /** If the body starts with a count or contains LF, its first frame is shorter and what is left
      cannot make up for it. */
  lemma NotWhole(body: Bytes, limit: int)
    requires body == [] || StartsWithCount(body) || LF in body
    ensures body !in Decode(body + [LF], limit).frames
  {
    var stream := body + [LF];
    var next := NextFrame(stream, limit);
    if body == [] {
      assert stream == [LF];
      assert Find(stream, LF) == 0;
      assert Decode([], limit) == Outcome([], None);
    } else if StartsWithCount(body) {
      DigitRunStays(body, [LF]);
      assert StartsWithCount(stream);
      if next.Frame? && body in Decode(stream, limit).frames {
        if body !in OneFrame(next.body) {
          FramesFit(next.rest, limit, body);
        }
      }
    } else {
      var i := Find(body, LF);
      FindStays(body, [LF], LF);
      if DigitRun(body) < |body| {
        DigitRunStays(body, [LF]);
      }
      assert DigitRun(stream) < |stream| && !StartsWithCount(stream);
      assert next.Frame? && next.rest == stream[i + 1..];
      assert next.rest[|next.rest| - 1] == LF;
      if body in Decode(stream, limit).frames {
        if body !in OneFrame(next.body) {
          FramesFit(next.rest, limit, body);
        }
      }
    }
  }

  // ----- the benchmark's TCP sender -----

  /** `line` octet-counted. */
  function CountedAll(lines: seq<Bytes>): (ms: seq<Message>)
    ensures |ms| == |lines|
    ensures forall i :: 0 <= i < |lines| ==> ms[i] == Message(lines[i], Counted)
  {
    seq(|lines|, i requires 0 <= i < |lines| => Message(lines[i], Counted))
  }

  class TcpSender {
    const batchBytes: int
    var buf: Bytes
    /** Bytes handed to the socket so far. */
    var wire: Bytes
    ghost var lines: seq<Bytes>

    ghost predicate Valid()
      reads this
    {
      wire + buf == EncodeAll(CountedAll(lines))
    }

    constructor (batchBytes: int)
      ensures Valid() && lines == [] && wire == []
    {
      this.batchBytes := batchBytes;
      buf, wire, lines := [], [], [];
    }

    method SendOne(line: Bytes)
      requires Valid()
      modifies this
      ensures Valid() && lines == old(lines) + [line]
      ensures var waiting := |old(buf)| + |Digits(|line|)| + 1 + |line|;
        if waiting >= batchBytes then buf == [] else |buf| == waiting && wire == old(wire)
    {
      hide EncodeAll, CountedAll, Digits;
      EncodeSnoc(CountedAll(lines), Message(line, Counted));
      assert CountedAll(lines + [line]) == CountedAll(lines) + [Message(line, Counted)];
      assert wire + (buf + Digits(|line|) + [SPACE] + line) == (wire + buf) + (Digits(|line|) + [SPACE] + line);
      buf := buf + Digits(|line|) + [SPACE] + line;
      lines := lines + [line];
      if |buf| >= batchBytes {
        Flush();
      }
    }

    method Flush()
      requires Valid()
      modifies this
      ensures Valid() && lines == old(lines) && buf == [] && wire == EncodeAll(CountedAll(lines))
    {
      assert wire + buf + [] == wire + buf;
      if buf != [] {
        wire := wire + buf;
        buf := [];
      }
      assert wire + [] == wire;
    }
  }

  lemma {:induction false} EncodeSnoc(ms: seq<Message>, m: Message)
    ensures EncodeAll(ms + [m]) == EncodeAll(ms) + Encode(m)
  {
    if ms == [] {
      assert ms + [m] == [m];
      assert Encode(m) + EncodeAll([]) == Encode(m);
    } else {
      assert (ms + [m])[1..] == ms[1..] + [m];
      EncodeSnoc(ms[1..], m);
      assert Encode(ms[0]) + (EncodeAll(ms[1..]) + Encode(m)) == (Encode(ms[0]) + EncodeAll(ms[1..])) + Encode(m);
    }
  }

  /** Everything a flushed sender put on the wire is read back line by line. */
  lemma SenderReadsBack(lines: seq<Bytes>, limit: int)
    requires forall line :: line in lines ==> Encodable(Message(line, Counted), limit)
    ensures Decode(EncodeAll(CountedAll(lines)), limit) == Outcome(lines, None)
  {
    MixedRoundTrip(CountedAll(lines), limit);
    BodiesAt(CountedAll(lines));
    assert Bodies(CountedAll(lines)) == lines;
  }

  lemma {:induction false} BodiesAt(ms: seq<Message>)
    ensures |Bodies(ms)| == |ms|
    ensures forall i :: 0 <= i < |ms| ==> Bodies(ms)[i] == ms[i].body
  {
    if ms != [] {
      BodiesAt(ms[1..]);
    }
  }
}
