/** The syslog header parser, ulpf/parse/syslog_envelope.py. Latin-1 text is one character per
    byte, so text is modelled as bytes. The scanners are specified on the suffix still to be
    read; the index loops are methods tied to those functions. */
module SyslogEnvelope {
  import opened Ascii
  import opened Core

  const LT: byte := 0x3C
  const GT: byte := 0x3E
  const DASH: byte := 0x2D
  const QUOTE: byte := 0x22
  const BACKSLASH: byte := 0x5C
  const OPEN: byte := 0x5B
  const CLOSE: byte := 0x5D
  const EQUALS: byte := 0x3D

  type Params = map<Bytes, Bytes>
  type Elements = map<Bytes, Params>

  // ----- structured data, on suffixes -----

  /** A quoted value up to its closing quote, unescaped, and what follows. */
  function Quoted(s: Bytes): (r: (Bytes, Bytes))
    ensures |r.1| <= |s|
  {
    if s == [] then ([], [])
    else if s[0] == BACKSLASH && |s| > 1 then
      var (value, rest) := Quoted(s[2..]);
      ([s[1]] + value, rest)
    else if s[0] == QUOTE then ([], s[1..])
    else
      var (value, rest) := Quoted(s[1..]);
      ([s[0]] + value, rest)
  }

  /** The `name="value"` list that starts at a space; a later name replaces an earlier one. */
  function ParamList(s: Bytes, params: Params): (r: (Params, Bytes))
    ensures |r.1| <= |s|
    decreases |s|
  {
    if s == [] || s[0] != SPACE then (params, s)
    else
      var t := s[1..];
      var eq := Find(t, EQUALS);
      if eq == |t| || eq + 1 >= |t| || t[eq + 1] != QUOTE then (params, t)
      else
        var (value, rest) := Quoted(t[eq + 2..]);
        ParamList(rest, params[t[..eq] := value])
  }

  function IdLength(s: Bytes): (n: nat)
    ensures n <= |s|
    ensures forall i :: 0 <= i < n ==> s[i] != SPACE && s[i] != CLOSE
    ensures n < |s| ==> s[n] == SPACE || s[n] == CLOSE
  {
    if s == [] || s[0] == SPACE || s[0] == CLOSE then 0 else 1 + IdLength(s[1..])
  }

  datatype Element = Element(id: Bytes, params: Params, rest: Bytes)

  function SdElement(s: Bytes): (e: Element)
    requires s != []
    ensures |e.rest| < |s|
  {
    var t := s[1..];
    var n := IdLength(t);
    var (params, rest) := ParamList(t[n..], map[]);
    Element(t[..n], params, if rest != [] && rest[0] == CLOSE then rest[1..] else rest)
  }

  function SdElements(s: Bytes, elements: Elements): (r: (Elements, Bytes))
    ensures |r.1| <= |s|
    decreases |s|
  {
    if s == [] || s[0] != OPEN then (elements, s)
    else
      var e := SdElement(s);
      SdElements(e.rest, elements[e.id := e.params])
  }

  /** Parsed STRUCTURED-DATA (absent when nil or malformed), and how many bytes of the tail come
      before MSG and belong to the raw field. */
  datatype Structured = Structured(data: Option<Elements>, rawLength: nat, offset: nat)

  function StructuredData(tail: Bytes): (r: Structured)
    ensures r.rawLength <= r.offset <= |tail|
  {
    if tail != [] && tail[0] == DASH && (|tail| == 1 || tail[1] == SPACE)
    then Structured(None, 1, if |tail| > 1 then 2 else 1)
    else if tail == [] || tail[0] != OPEN then Structured(None, 0, 0)
    else
      var (elements, rest) := SdElements(tail, map[]);
      var index := |tail| - |rest|;
      Structured(Some(elements), index, if rest != [] && rest[0] == SPACE then index + 1 else index)
  }

  // ----- the scanning loops -----

  method ReadQuoted(text: Bytes, start: nat) returns (value: Bytes, i: nat)
    requires start <= |text|
    ensures start <= i <= |text|
    ensures Quoted(text[start..]) == (value, text[i..])
  {
    value, i := [], start;
    assert value + Quoted(text[start..]).0 == Quoted(text[start..]).0;
    while i < |text|
      invariant start <= i <= |text|
      invariant Quoted(text[start..]) == (value + Quoted(text[i..]).0, Quoted(text[i..]).1)
      decreases |text| - i
    {
      var c := text[i];
      if c == BACKSLASH && i + 1 < |text| {
        assert text[i..][2..] == text[i + 2..];
        SeqAssoc(value, [text[i + 1]], Quoted(text[i + 2..]).0);
        value := value + [text[i + 1]];
        i := i + 2;
      } else if c == QUOTE {
        assert text[i..][1..] == text[i + 1..];
        assert value + [] == value;
        return value, i + 1;
      } else {
        assert text[i..][1..] == text[i + 1..];
        SeqAssoc(value, [c], Quoted(text[i + 1..]).0);
        value := value + [c];
        i := i + 1;
      }
    }
    assert value + [] == value;
  }

  /** One turn of the parameter loop at position i, `eq` being the first `=` after it. */
  lemma ParamStep(text: Bytes, i: nat, params: Params, eq: nat)
    requires i < |text| && text[i] == SPACE && eq == i + 1 + Find(text[i + 1..], EQUALS)
    requires eq + 1 < |text| && text[eq + 1] == QUOTE
    ensures var (value, rest) := Quoted(text[eq + 2..]);
      ParamList(text[i..], params) == ParamList(rest, params[text[i + 1..eq] := value])
  {
    var t := text[i..][1..];
    assert t == text[i + 1..];
    assert t[eq - i - 1 + 2..] == text[eq + 2..];
    assert t[..eq - i - 1] == text[i + 1..eq];
  }

  lemma ParamEnd(text: Bytes, i: nat, params: Params)
    requires i < |text| && text[i] == SPACE
    requires var eq := i + 1 + Find(text[i + 1..], EQUALS); eq + 1 >= |text| || text[eq + 1] != QUOTE
    ensures ParamList(text[i..], params) == (params, text[i + 1..])
  {
    assert text[i..][1..] == text[i + 1..];
  }

  lemma ParamNone(text: Bytes, i: nat, params: Params)
    requires i == |text| || (i < |text| && text[i] != SPACE)
    ensures ParamList(text[i..], params) == (params, text[i..])
  {}

  method ScanParams(text: Bytes, start: nat) returns (params: Params, i: nat)
    requires start <= |text|
    ensures start <= i <= |text|
    ensures ParamList(text[start..], map[]) == (params, text[i..])
  {
    params, i := map[], start;
    hide ParamList, Quoted, Find;
    ghost var goal := ParamList(text[start..], map[]);
    while i < |text| && text[i] == SPACE
      invariant start <= i <= |text|
      invariant ParamList(text[i..], params) == goal
      decreases |text| - i
    {
      var eq := i + 1 + Find(text[i + 1..], EQUALS);
      if eq == |text| || eq + 1 >= |text| || text[eq + 1] != QUOTE {
        ParamEnd(text, i, params);
        i := i + 1;
        return;
      }
      ParamStep(text, i, params, eq);
      var name := text[i + 1..eq];
      var value, next := ReadQuoted(text, eq + 2);
      params, i := params[name := value], next;
    }
    ParamNone(text, i, params);
  }

  predicate IdBetween(text: Bytes, lo: nat, hi: nat) {
    && lo <= hi <= |text|
    && (forall k :: lo <= k < hi ==> text[k] != SPACE && text[k] != CLOSE)
  }

  lemma {:induction false} IdLengthBetween(text: Bytes, lo: nat, hi: nat)
    requires IdBetween(text, lo, hi) && (hi < |text| ==> text[hi] == SPACE || text[hi] == CLOSE)
    ensures IdLength(text[lo..]) == hi - lo
    decreases hi - lo
  {
    if lo < hi {
      assert text[lo..][1..] == text[lo + 1..];
      IdLengthBetween(text, lo + 1, hi);
    }
  }

  lemma ElementParts(text: Bytes, start: nat, endId: nat, params: Params, i: nat)
    requires start < endId <= i <= |text| && IdBetween(text, start + 1, endId)
    requires endId < |text| ==> text[endId] == SPACE || text[endId] == CLOSE
    requires ParamList(text[endId..], map[]) == (params, text[i..])
    ensures SdElement(text[start..])
         == Element(text[start + 1..endId], params, if i < |text| && text[i] == CLOSE then text[i + 1..] else text[i..])
  {
    hide IdLength, ParamList;
    var t := text[start..][1..];
    assert t == text[start + 1..];
    IdLengthBetween(text, start + 1, endId);
    assert t[..endId - (start + 1)] == text[start + 1..endId];
    assert t[endId - (start + 1)..] == text[endId..];
    assert i < |text| ==> text[i..][1..] == text[i + 1..];
  }

  method ScanSdElement(text: Bytes, start: nat) returns (i: nat, id: Bytes, params: Params)
    requires start < |text|
    ensures start < i <= |text|
    ensures SdElement(text[start..]) == Element(id, params, text[i..])
  {
    hide SdElement, ParamList;
    var endId := start + 1;
    while endId < |text| && text[endId] != SPACE && text[endId] != CLOSE
      invariant IdBetween(text, start + 1, endId)
    {
      endId := endId + 1;
    }
    id := text[start + 1..endId];
    params, i := ScanParams(text, endId);
    ElementParts(text, start, endId, params, i);
    if i < |text| && text[i] == CLOSE {
      i := i + 1;
    }
  }

  method ParseStructuredData(tail: Bytes) returns (r: Structured)
    ensures r == StructuredData(tail)
  {
    hide SdElement;
    if tail != [] && tail[0] == DASH && (|tail| == 1 || tail[1] == SPACE) {
      return Structured(None, 1, if |tail| > 1 then 2 else 1);
    }
    if tail == [] || tail[0] != OPEN {
      return Structured(None, 0, 0);
    }
    var elements: Elements := map[];
    var index := 0;
    assert tail[0..] == tail;
    while index < |tail| && tail[index] == OPEN
      invariant 0 <= index <= |tail|
      invariant SdElements(tail, map[]) == SdElements(tail[index..], elements)
      decreases |tail| - index
    {
      var next, id, params := ScanSdElement(tail, index);
      elements := elements[id := params];
      index := next;
    }
    assert SdElements(tail[index..], elements) == (elements, tail[index..]);
    return Structured(Some(elements), index,
                      if index < |tail| && tail[index] == SPACE then index + 1 else index);
  }

  // ----- the header -----

  /** End of `<` 1-3 digits `>` at the start of the text. */
  function PriEnd(text: Bytes): (end: Option<nat>)
    ensures end.Some? ==> 3 <= end.value <= |text| && DigitsBetween(text, 1, end.value - 1)
  {
    if text == [] || text[0] != LT then None
    else
      var run := DigitRun(text[1..]);
      if 1 <= run <= 3 && 1 + run < |text| && text[1 + run] == GT then
        assert forall i :: 1 <= i < 1 + run ==> text[i] == text[1..][i - 1];
        Some(run + 2)
      else None
  }

  predicate DigitsBetween(text: Bytes, lo: nat, hi: nat) {
    lo <= hi <= |text| && forall i :: lo <= i < hi ==> IsDigit(text[i])
  }

  /** End of 1-3 digits and a space at `start`. */
  function VersionEnd(text: Bytes, start: nat): (end: Option<nat>)
    requires start <= |text|
    ensures end.Some? ==> start + 2 <= end.value <= |text| && DigitsBetween(text, start, end.value - 1)
  {
    var run := DigitRun(text[start..]);
    if 1 <= run <= 3 && start + run < |text| && text[start + run] == SPACE then
      assert forall i :: start <= i < start + run ==> text[i] == text[start..][i - start];
      Some(start + run + 1)
    else None
  }

  /** `text.split(" ", n)`. */
  function SplitSpaces(text: Bytes, n: nat): (parts: seq<Bytes>)
    ensures 1 <= |parts| <= n + 1
  {
    var i := Find(text, SPACE);
    if n == 0 || i == |text| then [text] else [text[..i]] + SplitSpaces(text[i + 1..], n - 1)
  }

  /** Length of the first k parts with the space after each. */
  function HeadLength(parts: seq<Bytes>, k: nat): nat
    requires k <= |parts|
  {
    if k == 0 then 0 else HeadLength(parts, k - 1) + |parts[k - 1]| + 1
  }

  lemma {:induction false} HeadLengthShift(parts: seq<Bytes>, k: nat)
    requires 1 <= k <= |parts|
    ensures HeadLength(parts, k) == |parts[0]| + 1 + HeadLength(parts[1..], k - 1)
  {
    if k > 1 {
      HeadLengthShift(parts, k - 1);
    }
  }

  lemma SplitStep(text: Bytes, n: nat)
    requires n > 0 && Find(text, SPACE) < |text|
    ensures var i := Find(text, SPACE); SplitSpaces(text, n) == [text[..i]] + SplitSpaces(text[i + 1..], n - 1)
  {}

  lemma SplitWhole(text: Bytes, n: nat)
    requires n == 0 || Find(text, SPACE) == |text|
    ensures SplitSpaces(text, n) == [text]
  {}

  /** The last part is what follows the others and their spaces. */
  lemma {:induction false} SplitPosition(text: Bytes, n: nat)
    ensures var parts := SplitSpaces(text, n);
      HeadLength(parts, |parts| - 1) + |parts[|parts| - 1]| == |text|
    ensures var parts := SplitSpaces(text, n);
      text[HeadLength(parts, |parts| - 1)..] == parts[|parts| - 1]
  {
    hide Find, SplitSpaces;
    var i := Find(text, SPACE);
    if n > 0 && i < |text| {
      SplitStep(text, n);
      SplitPosition(text[i + 1..], n - 1);
      var parts := SplitSpaces(text, n);
      HeadLengthShift(parts, |parts| - 1);
      assert parts[1..] == SplitSpaces(text[i + 1..], n - 1);
      assert text[i + 1..][HeadLength(parts[1..], |parts| - 2)..] == text[i + 1 + HeadLength(parts[1..], |parts| - 2)..];
    } else {
      SplitWhole(text, n);
    }
  }

  function Nil(value: Bytes): Option<Bytes> {
    if value == [DASH] then None else Some(value)
  }

  datatype Rfc5424Fields = Rfc5424Fields(
    version: nat, timestampRaw: Bytes, hostnameRaw: Bytes, appNameRaw: Bytes, procidRaw: Bytes, msgidRaw: Bytes,
    structuredData: Option<Elements>, structuredDataRaw: Bytes)
  {
    function Timestamp(): Option<Bytes> { Nil(timestampRaw) }
    function Hostname(): Option<Bytes> { Nil(hostnameRaw) }
    function AppName(): Option<Bytes> { Nil(appNameRaw) }
    function Procid(): Option<Bytes> { Nil(procidRaw) }
    function Msgid(): Option<Bytes> { Nil(msgidRaw) }
  }

  datatype Header = PriOnly | Rfc3164 | Rfc5424(fields: Rfc5424Fields)

  /** What the parser returns; `Unrecognised` is the empty envelope. */
  datatype Envelope =
    | Unrecognised(message: Bytes)
    | Envelope(pri: nat, facility: nat, severity: nat, header: Header, headerRaw: Bytes, message: Bytes)

  function Cut(raw: Bytes, pri: nat, header: Header, at: nat): Envelope
    requires at <= |raw|
  {
    Envelope(pri, pri / 8, pri % 8, header, raw[..at], raw[at..])
  }

  /** Header fields and the index of MSG, or None when fewer than five spaces follow. */
  function ParseRfc5424(text: Bytes, version: nat, start: nat): (r: Option<(Rfc5424Fields, nat)>)
    requires start <= |text|
    ensures r.Some? ==> start <= r.value.1 <= |text|
  {
    var parts := SplitSpaces(text[start..], 5);
    if |parts| < 6 then None
    else
      SplitPosition(text[start..], 5);
      var sd := StructuredData(parts[5]);
      Some((Rfc5424Fields(version, parts[0], parts[1], parts[2], parts[3], parts[4], sd.data, parts[5][..sd.rawLength]),
            start + HeadLength(parts, 5) + sd.offset))
  }

  /** The RFC 3164 regular expressions: where MSG begins, if they match after the PRI. */
  type Rfc3164Matcher = (Bytes, nat) -> Option<nat>

  ghost predicate MatcherInRange(matcher: Rfc3164Matcher) {
    forall text: Bytes, start: nat :: matcher(text, start).Some? ==> start <= matcher(text, start).value <= |text|
  }

  /** An RFC 5424 header after a PRI that ends at `priEnd`. */
  function Rfc5424After(raw: Bytes, priEnd: nat): (r: Option<(Rfc5424Fields, nat)>)
    requires priEnd <= |raw|
    ensures r.Some? ==> r.value.1 <= |raw|
  {
    var version := VersionEnd(raw, priEnd);
    if version.None? then None
    else ParseRfc5424(raw, NumberBetween(raw, priEnd, version.value - 1), version.value)
  }

  function ParseEnvelope(raw: Bytes, matcher: Rfc3164Matcher): Envelope
    requires MatcherInRange(matcher)
  {
    var priEnd := PriEnd(raw);
    if priEnd.None? then Unrecognised(raw)
    else
      var pri := NumberBetween(raw, 1, priEnd.value - 1);
      var rfc5424 := Rfc5424After(raw, priEnd.value);
      if rfc5424.Some? then Cut(raw, pri, Rfc5424(rfc5424.value.0), rfc5424.value.1)
      else if matcher(raw, priEnd.value).Some? then Cut(raw, pri, Rfc3164, matcher(raw, priEnd.value).value)
      else Cut(raw, pri, PriOnly, priEnd.value)
  }

  function NumberBetween(text: Bytes, lo: nat, hi: nat): nat
    requires DigitsBetween(text, lo, hi)
  {
    assert forall i :: 0 <= i < hi - lo ==> text[lo..hi][i] == text[lo + i];
    Number(text[lo..hi])
  }

  // ----- which format a message is taken for -----

  /** The text starts with `<`, n digits and `>`. */
  predicate PriOf(raw: Bytes, n: int) {
    && 1 <= n <= 3 && n + 1 < |raw| && raw[0] == LT && raw[n + 1] == GT
    && forall i :: 1 <= i <= n ==> IsDigit(raw[i])
  }

  /** At position `at` there are v digits and a space. */
  predicate VersionOf(raw: Bytes, at: int, v: int) {
    && 1 <= v <= 3 && 0 <= at && at + v < |raw| && raw[at + v] == SPACE
    && forall i :: at <= i < at + v ==> IsDigit(raw[i])
  }

  /** And five more spaces after that. */
  predicate HeaderFollows(raw: Bytes, at: int, v: int) {
    VersionOf(raw, at, v) && Spaces(raw[at + v + 1..]) >= 5
  }

  ghost predicate SomeHeaderFollows(raw: Bytes, at: int) {
    exists v :: HeaderFollows(raw, at, v)
  }

  /** The version of the envelope is the number that follows the PRI. */
  ghost predicate VersionRead(raw: Bytes, at: int, e: Envelope) {
    forall v :: HeaderFollows(raw, at, v) ==>
      e.Envelope? && e.header.Rfc5424? && e.header.fields.version == NumberBetween(raw, at, at + v)
  }

  function Spaces(text: Bytes): nat {
    if text == [] then 0 else (if text[0] == SPACE then 1 else 0) + Spaces(text[1..])
  }

  lemma {:induction false} SpacesAfterFirst(text: Bytes)
    ensures var i := Find(text, SPACE);
      Spaces(text) == if i == |text| then 0 else 1 + Spaces(text[i + 1..])
  {
    if text != [] && text[0] != SPACE {
      SpacesAfterFirst(text[1..]);
      var i := Find(text[1..], SPACE);
      assert i < |text[1..]| ==> text[1..][i + 1..] == text[i + 2..];
    }
  }

  /** One part more than there are spaces, but never more than n + 1. */
  lemma {:induction false} PartsCount(text: Bytes, n: nat)
    ensures |SplitSpaces(text, n)| == 1 + if Spaces(text) < n then Spaces(text) else n
  {
    hide Spaces, Find;
    SpacesAfterFirst(text);
    var i := Find(text, SPACE);
    if n > 0 && i < |text| {
      PartsCount(text[i + 1..], n - 1);
    }
  }

  lemma PriEndExactly(raw: Bytes, n: int)
    ensures PriOf(raw, n) <==> n >= 1 && PriEnd(raw) == Some(n + 2)
  {
    if raw != [] {
      assert forall i :: 1 <= i < |raw| ==> raw[i] == raw[1..][i - 1];
      if PriOf(raw, n) {
        var run := DigitRun(raw[1..]);
        assert raw[1..][n] == GT;
        assert run <= n;
        assert run == n;
      }
    }
  }

  lemma VersionEndExactly(raw: Bytes, at: nat, v: int)
    requires at <= |raw|
    ensures VersionOf(raw, at, v) <==> v >= 1 && VersionEnd(raw, at) == Some(at + v + 1)
  {
    assert forall i :: at <= i < |raw| ==> raw[i] == raw[at..][i - at];
    if VersionOf(raw, at, v) {
      var run := DigitRun(raw[at..]);
      assert raw[at..][v] == SPACE;
      assert run <= v;
      assert run == v;
    }
  }

  /** Without a PRI the whole input is the message. With one, the message is taken for RFC 5424 exactly
      when a version and at least five more spaces follow; else for RFC 3164 when its expressions match;
      else everything after the PRI is the message. */
  lemma FormatExactly(raw: Bytes, matcher: Rfc3164Matcher, n: int)
    requires MatcherInRange(matcher)
    ensures (forall k :: !PriOf(raw, k)) <==> ParseEnvelope(raw, matcher) == Unrecognised(raw)
    ensures PriOf(raw, n) ==>
      var e, found := ParseEnvelope(raw, matcher), matcher(raw, n + 2);
      && e.Envelope? && e.pri == NumberBetween(raw, 1, n + 1) && e.pri == 8 * e.facility + e.severity && e.severity < 8
      && (e.header.Rfc5424? <==> SomeHeaderFollows(raw, n + 2))
      && VersionRead(raw, n + 2, e)
      && (!e.header.Rfc5424? && found.Some? ==> e.header == Rfc3164 && e.message == raw[found.value..])
      && (!e.header.Rfc5424? && found.None? ==>
           e.header == PriOnly && e.message == raw[n + 2..] && e.headerRaw == raw[..n + 2])
  {
    hide Spaces, DigitRun, NumberBetween, StructuredData, SplitSpaces, PriEnd, VersionEnd;
    forall k
      ensures PriOf(raw, k) <==> k >= 1 && PriEnd(raw) == Some(k + 2)
    {
      PriEndExactly(raw, k);
    }
    if PriEnd(raw).Some? {
      PriEndExactly(raw, PriEnd(raw).value - 2);
      var at := PriEnd(raw).value;
      forall v
        ensures VersionOf(raw, at, v) <==> v >= 1 && VersionEnd(raw, at) == Some(at + v + 1)
      {
        VersionEndExactly(raw, at, v);
      }
      if VersionEnd(raw, at).Some? {
        PartsCount(raw[VersionEnd(raw, at).value..], 5);
        var v := VersionEnd(raw, at).value - at - 1;
        assert VersionOf(raw, at, v);
        assert HeaderFollows(raw, at, v) <==> |SplitSpaces(raw[at + v + 1..], 5)| == 6;
      }
    }
  }

  /** A field that is neither nil nor bracketed is no structured data: all of it is the message. */
  lemma MalformedIsMessage(tail: Bytes)
    ensures StructuredData(tail) == Structured(None, 0, 0) <==>
      tail == [] || (tail[0] != OPEN && !(tail[0] == DASH && (|tail| == 1 || tail[1] == SPACE)))
  {
    if tail != [] && tail[0] == OPEN {
      assert StructuredData(tail).data.Some?;
    }
  }

  /** On every input raw header and message concatenate to the input; where the cut lies is what
      `SplitPosition` and `HeaderIsItsFields` say. */
  lemma SplitIsReversible(raw: Bytes, matcher: Rfc3164Matcher)
    requires MatcherInRange(matcher)
    ensures var e := ParseEnvelope(raw, matcher);
      (if e.Envelope? then e.headerRaw else []) + e.message == raw
  {
    hide PriEnd, Rfc5424After, NumberBetween;
  }

  /** The raw header is made of what was parsed: whatever comes before the timestamp, the five
      fields with a space after each, the raw structured data and at most one space. */
  lemma HeaderIsItsFields(text: Bytes, version: nat, start: nat)
    requires start <= |text| && ParseRfc5424(text, version, start).Some?
    ensures var (fields, at) := ParseRfc5424(text, version, start).value;
      var printed := PrintFields([fields.timestampRaw, fields.hostnameRaw, fields.appNameRaw, fields.procidRaw, fields.msgidRaw]);
      || text[..at] == text[..start] + printed + fields.structuredDataRaw
      || text[..at] == text[..start] + printed + fields.structuredDataRaw + [SPACE]
  {
    hide SplitSpaces, StructuredData, HeadLength, PrintFields;
    var parts := SplitSpaces(text[start..], 5);
    var (fields, at) := ParseRfc5424(text, version, start).value;
    var sd := StructuredData(parts[5]);
    SplitJoins(text[start..], 5);
    SplitPosition(text[start..], 5);
    var printed := PrintFields(parts[..5]);
    assert parts[..5] == [fields.timestampRaw, fields.hostnameRaw, fields.appNameRaw, fields.procidRaw, fields.msgidRaw];
    PrintLength(parts, 5);
    OffsetIsSpace(parts[5]);
    CutJoined(text, start, printed, parts[5], sd.offset);
    if parts[5][..sd.offset] != parts[5][..sd.rawLength] {
      SeqAssoc(text[..start] + printed, parts[5][..sd.rawLength], [SPACE]);
    }
  }

  lemma CutJoined(text: Bytes, start: nat, printed: Bytes, tail: Bytes, offset: nat)
    requires start <= |text| && text[start..] == printed + tail && offset <= |tail|
    ensures text[..start + |printed| + offset] == text[..start] + printed + tail[..offset]
  {
    assert text == text[..start] + (printed + tail);
  }

  lemma OffsetIsSpace(tail: Bytes)
    ensures var sd := StructuredData(tail);
      tail[..sd.offset] == tail[..sd.rawLength] || tail[..sd.offset] == tail[..sd.rawLength] + [SPACE]
  {
    hide SdElements;
    var sd := StructuredData(tail);
    ElementsLeaveSuffix(tail, map[]);
    if sd.offset > sd.rawLength {
      assert tail[sd.rawLength] == SPACE;
      assert tail[..sd.offset] == tail[..sd.rawLength] + [tail[sd.rawLength]];
    }
  }

  /** What a scanner leaves is the end of what it was given. */
  predicate IsSuffix(rest: Bytes, s: Bytes) {
    |rest| <= |s| && rest == s[|s| - |rest|..]
  }

  lemma SuffixOfDrop(rest: Bytes, s: Bytes, n: nat)
    requires n <= |s| && IsSuffix(rest, s[n..])
    ensures IsSuffix(rest, s)
  {}

  lemma SuffixOfSuffix(rest: Bytes, middle: Bytes, s: Bytes)
    requires IsSuffix(rest, middle) && IsSuffix(middle, s)
    ensures IsSuffix(rest, s)
  {
    SuffixOfDrop(rest, s, |s| - |middle|);
  }

  lemma {:induction false} QuotedLeavesSuffix(s: Bytes)
    ensures IsSuffix(Quoted(s).1, s)
  {
    if s != [] && s[0] == BACKSLASH && |s| > 1 {
      QuotedLeavesSuffix(s[2..]);
      SuffixOfDrop(Quoted(s[2..]).1, s, 2);
    } else if s != [] && s[0] != QUOTE {
      QuotedLeavesSuffix(s[1..]);
      SuffixOfDrop(Quoted(s[1..]).1, s, 1);
    }
  }

  lemma OneParamLeavesSuffix(s: Bytes, eq: nat)
    requires s != [] && eq + 2 <= |s[1..]|
    ensures IsSuffix(Quoted(s[1..][eq + 2..]).1, s)
  {
    hide Quoted, IsSuffix;
    var t := s[1..];
    QuotedLeavesSuffix(t[eq + 2..]);
    SuffixOfDrop(Quoted(t[eq + 2..]).1, t, eq + 2);
    SuffixOfDrop(Quoted(t[eq + 2..]).1, s, 1);
  }

  lemma {:induction false} ParamsLeaveSuffix(s: Bytes, params: Params)
    ensures IsSuffix(ParamList(s, params).1, s)
    decreases |s|
  {
    if s != [] && s[0] == SPACE {
      hide Quoted, Find, IsSuffix;
      var t := s[1..];
      var eq := Find(t, EQUALS);
      if eq == |t| || eq + 1 >= |t| || t[eq + 1] != QUOTE {
        Whole(t);
        SuffixOfDrop(t, s, 1);
      } else {
        OneParamLeavesSuffix(s, eq);
        var (value, rest) := Quoted(t[eq + 2..]);
        var more := params[t[..eq] := value];
        assert ParamList(s, params) == ParamList(rest, more);
        ParamsLeaveSuffix(rest, more);
        SuffixOfSuffix(ParamList(rest, more).1, rest, s);
      }
    } else {
      Whole(s);
    }
  }

  lemma Whole(s: Bytes)
    ensures IsSuffix(s, s)
  {}

  lemma ElementLeavesSuffix(s: Bytes)
    requires s != []
    ensures IsSuffix(SdElement(s).rest, s)
  {
    hide ParamList, IdLength, IsSuffix;
    var t := s[1..];
    var n := IdLength(t);
    var rest := ParamList(t[n..], map[]).1;
    ParamsLeaveSuffix(t[n..], map[]);
    SuffixOfDrop(rest, t, n);
    SuffixOfDrop(rest, s, 1);
    if rest != [] && rest[0] == CLOSE {
      Whole(rest[1..]);
      SuffixOfDrop(rest[1..], rest, 1);
      SuffixOfSuffix(rest[1..], rest, s);
    }
  }

  lemma {:induction false} ElementsLeaveSuffix(s: Bytes, elements: Elements)
    ensures IsSuffix(SdElements(s, elements).1, s)
    decreases |s|
  {
    hide SdElement, IsSuffix;
    if s == [] || s[0] != OPEN {
      Whole(s);
    } else {
      var e := SdElement(s);
      ElementLeavesSuffix(s);
      ElementsLeaveSuffix(e.rest, elements[e.id := e.params]);
      SuffixOfSuffix(SdElements(e.rest, elements[e.id := e.params]).1, e.rest, s);
    }
  }

  /** Splitting at spaces and joining with spaces again gives the text. */
  lemma {:induction false} SplitJoins(text: Bytes, n: nat)
    ensures var parts := SplitSpaces(text, n); PrintFields(parts[..|parts| - 1]) + parts[|parts| - 1] == text
  {
    hide Find;
    var i := Find(text, SPACE);
    if n > 0 && i < |text| {
      SplitJoins(text[i + 1..], n - 1);
      var parts, rest := SplitSpaces(text, n), SplitSpaces(text[i + 1..], n - 1);
      assert parts[..|parts| - 1] == [text[..i]] + rest[..|rest| - 1];
      assert text == text[..i] + [SPACE] + text[i + 1..];
      SeqAssoc(text[..i] + [SPACE], PrintFields(rest[..|rest| - 1]), rest[|rest| - 1]);
    } else {
      assert SplitSpaces(text, n) == [text];
    }
  }

  lemma {:induction false} PrintLength(parts: seq<Bytes>, k: nat)
    requires k <= |parts|
    ensures |PrintFields(parts[..k])| == HeadLength(parts, k)
    decreases k
  {
    if k > 0 {
      HeadLengthShift(parts, k);
      assert parts[..k][1..] == parts[1..][..k - 1];
      PrintLength(parts[1..], k - 1);
    }
  }

  // ----- printing, sections 6.2 and 6.3 of RFC 5424 -----

  datatype Param = Param(name: Bytes, value: Bytes)

  datatype SdItem = SdItem(id: Bytes, params: seq<Param>)

  /** Section 6.3.3: quote, backslash and closing bracket are escaped. */
  function Escape(value: Bytes): Bytes {
    if value == [] then []
    else
      (if value[0] == QUOTE || value[0] == BACKSLASH || value[0] == CLOSE then [BACKSLASH, value[0]] else [value[0]])
      + Escape(value[1..])
  }

  function PrintParam(p: Param): Bytes {
    [SPACE] + p.name + [EQUALS, QUOTE] + Escape(p.value) + [QUOTE]
  }

  function PrintParams(ps: seq<Param>): Bytes {
    if ps == [] then [] else PrintParam(ps[0]) + PrintParams(ps[1..])
  }

  function PrintItem(item: SdItem): Bytes {
    [OPEN] + item.id + PrintParams(item.params) + [CLOSE]
  }

  function PrintItems(items: seq<SdItem>): Bytes {
    if items == [] then [] else PrintItem(items[0]) + PrintItems(items[1..])
  }

  function PrintSd(items: seq<SdItem>): Bytes {
    if items == [] then [DASH] else PrintItems(items)
  }

  predicate PrintableItem(item: SdItem) {
    SPACE !in item.id && CLOSE !in item.id && forall p :: p in item.params ==> EQUALS !in p.name
  }

  function AddParams(params: Params, ps: seq<Param>): Params
    decreases |ps|
  {
    if ps == [] then params else AddParams(params[ps[0].name := ps[0].value], ps[1..])
  }

  function AddItems(elements: Elements, items: seq<SdItem>): Elements
    decreases |items|
  {
    if items == [] then elements
    else AddItems(elements[items[0].id := AddParams(map[], items[0].params)], items[1..])
  }

  // ----- any quoted value -----

  /** What a value is written of: a byte that stands for itself, or any byte after a backslash. */
  datatype Piece = Plain(b: byte) | Escaped(b: byte)

  predicate WellSpelt(pieces: seq<Piece>) {
    forall i :: 0 <= i < |pieces| && pieces[i].Plain? ==> pieces[i].b != QUOTE && pieces[i].b != BACKSLASH
  }

  function Spelt(pieces: seq<Piece>): Bytes {
    if pieces == [] then []
    else (if pieces[0].Plain? then [pieces[0].b] else [BACKSLASH, pieces[0].b]) + Spelt(pieces[1..])
  }

  function Meant(pieces: seq<Piece>): (value: Bytes)
    ensures |value| == |pieces| && forall i :: 0 <= i < |pieces| ==> value[i] == pieces[i].b
  {
    seq(|pieces|, i requires 0 <= i < |pieces| => pieces[i].b)
  }

  /** Any spelling is read as what it means, whatever byte a backslash precedes, up to the closing quote or
      the end of the text; a lone backslash at the end stands for itself. */
  lemma {:induction false} QuotedReads(pieces: seq<Piece>, post: Bytes)
    requires WellSpelt(pieces)
    ensures Quoted(Spelt(pieces) + ([QUOTE] + post)) == (Meant(pieces), post)
    ensures Quoted(Spelt(pieces)) == (Meant(pieces), [])
    ensures Quoted(Spelt(pieces) + [BACKSLASH]) == (Meant(pieces) + [BACKSLASH], [])
  {
    hide Quoted;
    if pieces == [] {
      NothingSpelt(post);
      assert Meant(pieces) == [] && [] + ([QUOTE] + post) == [QUOTE] + post && [] + [BACKSLASH] == [BACKSLASH];
    } else {
      QuotedReads(pieces[1..], post);
      PieceReads(pieces, [QUOTE] + post);
      PieceReads(pieces, []);
      PieceReads(pieces, [BACKSLASH]);
      assert Spelt(pieces) + [] == Spelt(pieces) && Spelt(pieces[1..]) + [] == Spelt(pieces[1..]);
      assert Meant(pieces) == [pieces[0].b] + Meant(pieces[1..]);
      assert Meant(pieces) + [BACKSLASH] == [pieces[0].b] + (Meant(pieces[1..]) + [BACKSLASH]);
    }
  }

  lemma NothingSpelt(post: Bytes)
    ensures Quoted([QUOTE] + post) == ([], post)
    ensures Quoted([]) == ([], [])
    ensures Quoted([BACKSLASH]) == ([BACKSLASH], [])
  {
    assert ([QUOTE] + post)[1..] == post;
    assert [BACKSLASH][1..] == [] && [BACKSLASH] + [] == [BACKSLASH];
  }

  lemma PieceReads(pieces: seq<Piece>, more: Bytes)
    requires pieces != [] && WellSpelt(pieces)
    ensures var (value, rest) := Quoted(Spelt(pieces[1..]) + more);
      Quoted(Spelt(pieces) + more) == ([pieces[0].b] + value, rest)
  {
    var s, later := Spelt(pieces) + more, Spelt(pieces[1..]) + more;
    if pieces[0].Plain? {
      assert s[0] == pieces[0].b && s[1..] == later;
    } else {
      assert s[0] == BACKSLASH && s[1] == pieces[0].b && s[2..] == later;
    }
  }

  lemma {:induction false} QuotedInverse(value: Bytes, post: Bytes)
    ensures Quoted(Escape(value) + [QUOTE] + post) == (value, post)
  {
    var s := Escape(value) + [QUOTE] + post;
    if value == [] {
      assert s[0] == QUOTE && s[1..] == post;
    } else {
      QuotedInverse(value[1..], post);
      assert [value[0]] + value[1..] == value;
      var rest := Escape(value[1..]) + [QUOTE] + post;
      if value[0] == QUOTE || value[0] == BACKSLASH || value[0] == CLOSE {
        assert s == [BACKSLASH, value[0]] + rest;
        assert s[2..] == rest;
      } else {
        assert s == [value[0]] + rest;
        assert s[1..] == rest;
      }
    }
  }

  lemma ParamInverse(p: Param, post: Bytes, params: Params)
    requires EQUALS !in p.name
    ensures ParamList(PrintParam(p) + post, params) == ParamList(post, params[p.name := p.value])
  {
    var s := PrintParam(p) + post;
    var t := s[1..];
    var quoted := Escape(p.value) + [QUOTE] + post;
    assert t == p.name + [EQUALS] + ([QUOTE] + quoted);
    FindFirst(p.name, [QUOTE] + quoted, EQUALS);
    assert t[..|p.name|] == p.name;
    assert t[|p.name| + 1] == QUOTE;
    assert t[|p.name| + 2..] == quoted;
    QuotedInverse(p.value, post);
  }

  lemma {:induction false} ParamsInverse(ps: seq<Param>, post: Bytes, params: Params)
    requires forall p :: p in ps ==> EQUALS !in p.name
    requires post != [] && post[0] == CLOSE
    ensures ParamList(PrintParams(ps) + post, params) == (AddParams(params, ps), post)
  {
    if ps == [] {
      assert PrintParams(ps) + post == post;
    } else {
      assert ps[0] in ps;
      SeqAssoc(PrintParam(ps[0]), PrintParams(ps[1..]), post);
      ParamInverse(ps[0], PrintParams(ps[1..]) + post, params);
      ParamsInverse(ps[1..], post, params[ps[0].name := ps[0].value]);
    }
  }

  lemma {:induction false} IdLengthOf(id: Bytes, post: Bytes)
    requires SPACE !in id && CLOSE !in id && post != [] && (post[0] == SPACE || post[0] == CLOSE)
    ensures IdLength(id + post) == |id|
  {
    if id == [] {
      assert id + post == post;
    } else {
      assert (id + post)[1..] == id[1..] + post;
      IdLengthOf(id[1..], post);
    }
  }

  lemma ItemInverse(item: SdItem, post: Bytes)
    requires PrintableItem(item)
    ensures SdElement(PrintItem(item) + post) == Element(item.id, AddParams(map[], item.params), post)
  {
    var s := PrintItem(item) + post;
    var t := s[1..];
    var after := PrintParams(item.params) + ([CLOSE] + post);
    assert t == item.id + after;
    assert after[0] == SPACE || after[0] == CLOSE by {
      if item.params != [] {
        assert PrintParams(item.params)[0] == PrintParam(item.params[0])[0] == SPACE;
      }
    }
    IdLengthOf(item.id, after);
    assert t[|item.id|..] == after && t[..|item.id|] == item.id;
    ParamsInverse(item.params, [CLOSE] + post, map[]);
    assert ([CLOSE] + post)[1..] == post;
  }

  lemma {:induction false} ItemsInverse(items: seq<SdItem>, post: Bytes, elements: Elements)
    requires forall item :: item in items ==> PrintableItem(item)
    requires post == [] || post[0] != OPEN
    ensures SdElements(PrintItems(items) + post, elements) == (AddItems(elements, items), post)
  {
    if items == [] {
      assert PrintItems(items) + post == post;
    } else {
      assert items[0] in items;
      var rest := PrintItems(items[1..]) + post;
      assert PrintItems(items) + post == PrintItem(items[0]) + rest;
      ItemInverse(items[0], rest);
      ItemsInverse(items[1..], post, elements[items[0].id := AddParams(map[], items[0].params)]);
    }
  }

  lemma NilInverse(post: Bytes)
    requires post == [] || post[0] == SPACE
    ensures StructuredData([DASH] + post) == Structured(None, 1, if post == [] then 1 else 2)
  {}

  lemma ListInverse(items: seq<SdItem>, post: Bytes)
    requires items != [] && forall item :: item in items ==> PrintableItem(item)
    requires post == [] || post[0] == SPACE
    ensures StructuredData(PrintItems(items) + post)
      == Structured(Some(AddItems(map[], items)), |PrintItems(items)|,
                    if post == [] then |PrintItems(items)| else |PrintItems(items)| + 1)
  {
    ItemsInverse(items, post, map[]);
    assert PrintItem(items[0])[0] == OPEN;
    assert (PrintItems(items) + post)[0] == OPEN;
  }

  function MsgPart(msg: Option<Bytes>): Bytes {
    if msg.Some? then [SPACE] + msg.value else []
  }

  /** The field and the MSG that follows it, MSG being optional. */
  lemma SdInverse(items: seq<SdItem>, msg: Option<Bytes>)
    requires forall item :: item in items ==> PrintableItem(item)
    ensures var tail := PrintSd(items) + MsgPart(msg);
      var r := StructuredData(tail);
      && r.data == (if items == [] then None else Some(AddItems(map[], items)))
      && tail[..r.rawLength] == PrintSd(items)
      && tail[r.offset..] == (if msg.Some? then msg.value else [])
  {
    hide PrintItems, AddItems, StructuredData;
    if items == [] {
      NilInverse(MsgPart(msg));
    } else {
      ListInverse(items, MsgPart(msg));
    }
  }

  /** Distinct names and distinct ids are all found again, nested as printed. */
  lemma {:induction false} ParamsKept(params: Params, ps: seq<Param>, i: nat)
    requires forall j, k :: 0 <= j < k < |ps| ==> ps[j].name != ps[k].name
    requires i < |ps|
    ensures ps[i].name in AddParams(params, ps) && AddParams(params, ps)[ps[i].name] == ps[i].value
    decreases |ps|
  {
    if i > 0 {
      ParamsKept(params[ps[0].name := ps[0].value], ps[1..], i - 1);
    } else {
      ParamsUntouched(params[ps[0].name := ps[0].value], ps[1..], ps[0].name);
    }
  }

  lemma {:induction false} ParamsUntouched(params: Params, ps: seq<Param>, name: Bytes)
    requires forall j :: 0 <= j < |ps| ==> ps[j].name != name
    ensures name in AddParams(params, ps) <==> name in params
    ensures name in params ==> AddParams(params, ps)[name] == params[name]
    decreases |ps|
  {
    if ps != [] {
      ParamsUntouched(params[ps[0].name := ps[0].value], ps[1..], name);
    }
  }

  lemma {:induction false} ItemsKept(elements: Elements, items: seq<SdItem>, i: nat)
    requires forall j, k :: 0 <= j < k < |items| ==> items[j].id != items[k].id
    requires i < |items|
    ensures items[i].id in AddItems(elements, items)
    ensures AddItems(elements, items)[items[i].id] == AddParams(map[], items[i].params)
    decreases |items|
  {
    var next := elements[items[0].id := AddParams(map[], items[0].params)];
    if i > 0 {
      ItemsKept(next, items[1..], i - 1);
    } else {
      ItemsUntouched(next, items[1..], items[0].id);
    }
  }

  lemma {:induction false} ItemsUntouched(elements: Elements, items: seq<SdItem>, id: Bytes)
    requires forall j :: 0 <= j < |items| ==> items[j].id != id
    ensures id in AddItems(elements, items) <==> id in elements
    ensures id in elements ==> AddItems(elements, items)[id] == elements[id]
    decreases |items|
  {
    if items != [] {
      ItemsUntouched(elements[items[0].id := AddParams(map[], items[0].params)], items[1..], id);
    }
  }

  // ----- the whole message -----

  /** Header fields may be absent. */
  datatype Message = Message(
    pri: nat, version: nat, timestamp: Option<Bytes>, hostname: Option<Bytes>, appName: Option<Bytes>,
    procid: Option<Bytes>, msgid: Option<Bytes>, sd: seq<SdItem>, msg: Option<Bytes>)

  /** An absent field is printed as the NILVALUE of section 6 of RFC 5424. */
  function OrNil(field: Option<Bytes>): Bytes {
    if field.Some? then field.value else [DASH]
  }

  lemma NilReadsBack(field: Option<Bytes>)
    ensures Nil(OrNil(field)) == field <==> field != Some([DASH])
  {}

  function HeaderFields(m: Message): seq<Option<Bytes>> {
    [m.timestamp, m.hostname, m.appName, m.procid, m.msgid]
  }

  function Fields(m: Message): seq<Bytes> {
    [OrNil(m.timestamp), OrNil(m.hostname), OrNil(m.appName), OrNil(m.procid), OrNil(m.msgid)]
  }

  function PrintFields(fields: seq<Bytes>): Bytes {
    if fields == [] then [] else fields[0] + [SPACE] + PrintFields(fields[1..])
  }

  function PrintPri(m: Message): Bytes {
    [LT] + Digits(m.pri) + [GT]
  }

  function PrintTail(m: Message): Bytes {
    PrintSd(m.sd) + MsgPart(m.msg)
  }

  function Print(m: Message): Bytes {
    PrintPri(m) + (Digits(m.version) + [SPACE]) + (PrintFields(Fields(m)) + PrintTail(m))
  }

  /** The field has no space, and is not the text that stands for an absent one. */
  predicate PrintableField(field: Option<Bytes>) {
    SPACE !in OrNil(field) && field != Some([DASH])
  }

  lemma PrintableFields(m: Message)
    requires Printable(m)
    ensures forall f :: f in Fields(m) ==> SPACE !in f
    ensures forall f :: f in HeaderFields(m) ==> Nil(OrNil(f)) == f
  {
    assert m.timestamp in HeaderFields(m) && m.hostname in HeaderFields(m) && m.appName in HeaderFields(m);
    assert m.procid in HeaderFields(m) && m.msgid in HeaderFields(m);
  }

  predicate Printable(m: Message) {
    && m.pri <= 999 && m.version <= 999
    && (forall f :: f in HeaderFields(m) ==> PrintableField(f))
    && (forall item :: item in m.sd ==> PrintableItem(item))
  }

  lemma DigitsShort(n: nat)
    requires n <= 999
    ensures 1 <= |Digits(n)| <= 3
  {
    assert Digits(n) == if n < 10 then [n as byte + ZERO] else Digits(n / 10) + [(n % 10) as byte + ZERO];
    assert n / 10 <= 99 && n / 10 / 10 <= 9;
  }

  lemma SplitFirst(field: Bytes, rest: Bytes, n: nat)
    requires SPACE !in field && n > 0
    ensures SplitSpaces(field + [SPACE] + rest, n) == [field] + SplitSpaces(rest, n - 1)
  {
    hide Find;
    var text := field + [SPACE] + rest;
    FindFirst(field, rest, SPACE);
    assert text[..|field|] == field;
    assert text[|field| + 1..] == rest;
  }

  lemma {:induction false} SplitFields(fields: seq<Bytes>, tail: Bytes)
    requires forall f :: f in fields ==> SPACE !in f
    ensures SplitSpaces(PrintFields(fields) + tail, |fields|) == fields + [tail]
  {
    hide SplitSpaces;
    if fields == [] {
      assert PrintFields(fields) + tail == tail;
      assert fields + [tail] == [tail];
      SplitWhole(tail, 0);
    } else {
      assert fields[0] in fields;
      SplitFirst(fields[0], PrintFields(fields[1..]) + tail, |fields|);
      SeqAssoc(fields[0] + [SPACE], PrintFields(fields[1..]), tail);
      SplitFields(fields[1..], tail);
      assert fields + [tail] == [fields[0]] + (fields[1..] + [tail]);
    }
  }

  lemma PriInverse(m: Message, post: Bytes)
    requires m.pri <= 999
    ensures var text := PrintPri(m) + post;
      && PriEnd(text) == Some(|PrintPri(m)|)
      && NumberBetween(text, 1, |PrintPri(m)| - 1) == m.pri
  {
    var text := PrintPri(m) + post;
    DigitsShort(m.pri);
    assert text[1..] == Digits(m.pri) + ([GT] + post);
    DigitRunOf(Digits(m.pri), [GT] + post);
    assert text[1..|PrintPri(m)| - 1] == Digits(m.pri);
    NumberOfDigits(m.pri);
  }

  lemma VersionInverse(pre: Bytes, version: nat, post: Bytes)
    requires version <= 999
    ensures var text := pre + (Digits(version) + [SPACE]) + post;
      && VersionEnd(text, |pre|) == Some(|pre| + |Digits(version)| + 1)
      && NumberBetween(text, |pre|, |pre| + |Digits(version)|) == version
      && text[|pre| + |Digits(version)| + 1..] == post
  {
    var text := pre + (Digits(version) + [SPACE]) + post;
    DigitsShort(version);
    assert text[|pre|..] == Digits(version) + ([SPACE] + post);
    DigitRunOf(Digits(version), [SPACE] + post);
    assert text[|pre|..|pre| + |Digits(version)|] == Digits(version);
    NumberOfDigits(version);
  }

  function Expected(m: Message): Rfc5424Fields {
    Rfc5424Fields(m.version, OrNil(m.timestamp), OrNil(m.hostname), OrNil(m.appName), OrNil(m.procid), OrNil(m.msgid),
                  if m.sd == [] then None else Some(AddItems(map[], m.sd)), PrintSd(m.sd))
  }

  lemma HeaderInverse(m: Message, text: Bytes, start: nat)
    requires Printable(m) && start <= |text| && text[start..] == PrintFields(Fields(m)) + PrintTail(m)
    ensures var r := ParseRfc5424(text, m.version, start);
      && r.Some? && r.value.0 == Expected(m)
      && text[r.value.1..] == (if m.msg.Some? then m.msg.value else [])
  {
    hide SplitSpaces, PrintFields, PrintSd, MsgPart, StructuredData, AddItems;
    var parts := SplitSpaces(text[start..], 5);
    assert parts == Fields(m) + [PrintTail(m)] by {
      PrintableFields(m);
      SplitFields(Fields(m), PrintTail(m));
    }
    SdInverse(m.sd, m.msg);
    HeaderPosition(text, start, parts, StructuredData(PrintTail(m)).offset);
  }

  lemma HeaderPosition(text: Bytes, start: nat, parts: seq<Bytes>, offset: nat)
    requires start <= |text| && parts == SplitSpaces(text[start..], 5) && |parts| == 6 && offset <= |parts[5]|
    ensures start + HeadLength(parts, 5) + offset <= |text|
    ensures text[start + HeadLength(parts, 5) + offset..] == parts[5][offset..]
  {
    SplitPosition(text[start..], 5);
  }

  /** Inversion: parsing a printed message returns its fields, absent ones as None, its nested
      parameters and exactly its MSG bytes. */
  lemma PrintedParsesBack(m: Message, matcher: Rfc3164Matcher)
    requires Printable(m) && MatcherInRange(matcher)
    ensures var e := ParseEnvelope(Print(m), matcher);
      && e.Envelope? && e.header == Rfc5424(Expected(m))
      && e.header.fields.Timestamp() == m.timestamp && e.header.fields.Hostname() == m.hostname
      && e.header.fields.AppName() == m.appName && e.header.fields.Procid() == m.procid
      && e.header.fields.Msgid() == m.msgid
      && e.pri == m.pri && e.pri == 8 * e.facility + e.severity && e.severity < 8
      && e.message == (if m.msg.Some? then m.msg.value else [])
      && e.headerRaw + e.message == Print(m)
  {
    PrintedPri(m);
    PrintableFields(m);
    assert m.timestamp in HeaderFields(m) && m.hostname in HeaderFields(m) && m.appName in HeaderFields(m);
    assert m.procid in HeaderFields(m) && m.msgid in HeaderFields(m);
    var at := PrintedHeader(m);
    TakesRfc5424(Print(m), matcher, m.pri, |PrintPri(m)|, Expected(m), at);
  }

  lemma PrintedHeader(m: Message) returns (at: nat)
    requires Printable(m)
    ensures Rfc5424After(Print(m), |PrintPri(m)|) == Some((Expected(m), at))
    ensures at <= |Print(m)| && Print(m)[at..] == (if m.msg.Some? then m.msg.value else [])
  {
    hide PriEnd, VersionEnd, ParseRfc5424, NumberBetween, PrintPri, PrintFields, PrintTail, Digits, Expected;
    PrintedVersion(m);
    var start := |PrintPri(m)| + |Digits(m.version)| + 1;
    HeaderInverse(m, Print(m), start);
    at := ParseRfc5424(Print(m), m.version, start).value.1;
  }

  lemma PrintedPri(m: Message)
    requires Printable(m)
    ensures PriEnd(Print(m)) == Some(|PrintPri(m)|)
    ensures NumberBetween(Print(m), 1, |PrintPri(m)| - 1) == m.pri
  {
    var rest := (Digits(m.version) + [SPACE]) + (PrintFields(Fields(m)) + PrintTail(m));
    SeqAssoc(PrintPri(m), Digits(m.version) + [SPACE], PrintFields(Fields(m)) + PrintTail(m));
    PriInverse(m, rest);
  }

  lemma PrintedVersion(m: Message)
    requires Printable(m)
    ensures var start := |PrintPri(m)| + |Digits(m.version)| + 1;
      && VersionEnd(Print(m), |PrintPri(m)|) == Some(start)
      && NumberBetween(Print(m), |PrintPri(m)|, start - 1) == m.version
      && Print(m)[start..] == PrintFields(Fields(m)) + PrintTail(m)
  {
    VersionInverse(PrintPri(m), m.version, PrintFields(Fields(m)) + PrintTail(m));
  }

  lemma TakesRfc5424(raw: Bytes, matcher: Rfc3164Matcher, pri: nat, priEnd: nat, fields: Rfc5424Fields, at: nat)
    requires MatcherInRange(matcher) && at <= |raw|
    requires PriEnd(raw) == Some(priEnd) && NumberBetween(raw, 1, priEnd - 1) == pri
    requires Rfc5424After(raw, priEnd) == Some((fields, at))
    ensures ParseEnvelope(raw, matcher) == Envelope(pri, pri / 8, pri % 8, Rfc5424(fields), raw[..at], raw[at..])
    ensures raw[..at] + raw[at..] == raw
  {}

  /** The nested parameters of a printed message, one by one. */
  lemma PrintedParamsParseBack(m: Message, matcher: Rfc3164Matcher, i: nat, j: nat)
    requires Printable(m) && MatcherInRange(matcher)
    requires forall a, b :: 0 <= a < b < |m.sd| ==> m.sd[a].id != m.sd[b].id
    requires i < |m.sd| && j < |m.sd[i].params|
    requires forall a, b :: 0 <= a < b < |m.sd[i].params| ==> m.sd[i].params[a].name != m.sd[i].params[b].name
    ensures var e := ParseEnvelope(Print(m), matcher);
      && e.Envelope? && e.header.Rfc5424? && e.header.fields.structuredData.Some?
      && var data := e.header.fields.structuredData.value;
      && m.sd[i].id in data
      && m.sd[i].params[j].name in data[m.sd[i].id]
      && data[m.sd[i].id][m.sd[i].params[j].name] == m.sd[i].params[j].value
  {
    PrintedParsesBack(m, matcher);
    ItemsKept(map[], m.sd, i);
    ParamsKept(map[], m.sd[i].params, j);
  }
}
