/** The file tailer, ulpf/ingest/file_tail.py: read past the saved position, hold the partial
    last line, remember the byte offset of the first line not yet delivered. */
module FileTail {
  import opened Ascii
  import opened Core

  // ----- splitting into lines -----

  function StripCr(part: Bytes): Bytes {
    if part != [] && part[|part| - 1] == CR then part[..|part| - 1] else part
  }

  /** A part without one trailing CR, dropped when blank. */
  function Kept(part: Bytes): seq<Bytes> {
    if StripCr(part) == [] then [] else [StripCr(part)]
  }

  /** The bytes after the last LF. */
  function Rest(data: Bytes): Bytes {
    if data == [] || data[|data| - 1] == LF then []
    else Rest(data[..|data| - 1]) + [data[|data| - 1]]
  }

  /** The non-blank complete lines. */
  function Lines(data: Bytes): seq<Bytes> {
    if data == [] then []
    else
      var front := data[..|data| - 1];
      if data[|data| - 1] == LF then Lines(front) + Kept(Rest(front)) else Lines(front)
  }

  /** `data.split(b"\n")`: one part more than there are LF bytes. */
  function Parts(data: Bytes): (parts: seq<Bytes>)
    ensures parts != []
  {
    if data == [] then [[]]
    else
      var parts := Parts(data[..|data| - 1]);
      if data[|data| - 1] == LF then parts + [[]]
      else parts[..|parts| - 1] + [parts[|parts| - 1] + [data[|data| - 1]]]
  }

  function Clean(parts: seq<Bytes>): seq<Bytes> {
    if parts == [] then [] else Clean(parts[..|parts| - 1]) + Kept(parts[|parts| - 1])
  }

  lemma {:induction false} PartsAreLines(data: Bytes)
    ensures Clean(Parts(data)[..|Parts(data)| - 1]) == Lines(data)
    ensures Parts(data)[|Parts(data)| - 1] == Rest(data)
  {
    if data != [] {
      PartsAreLines(data[..|data| - 1]);
      var parts := Parts(data[..|data| - 1]);
      if data[|data| - 1] == LF {
        assert Parts(data)[..|Parts(data)| - 1] == parts;
      } else {
        assert Parts(data)[..|Parts(data)| - 1] == parts[..|parts| - 1];
      }
    }
  }

  method SplitLines(data: Bytes) returns (lines: seq<Bytes>, remainder: Bytes)
    ensures lines == Lines(data) && remainder == Rest(data)
  {
    hide Lines, Rest;
    if LF !in data {
      NoLf(data);
      return [], data;
    }
    PartsAreLines(data);
    var parts := Parts(data);
    remainder := parts[|parts| - 1];
    parts := parts[..|parts| - 1];
    lines := [];
    for k := 0 to |parts|
      invariant lines == Clean(parts[..k])
    {
      assert parts[..k + 1][..k] == parts[..k];
      var line := StripCr(parts[k]);
      if line != [] {
        lines := lines + [line];
      }
    }
    assert parts[..|parts|] == parts;
  }

  lemma {:induction false} NoLf(data: Bytes)
    requires LF !in data
    ensures Lines(data) == [] && Rest(data) == data
  {
    if data != [] {
      NoLf(data[..|data| - 1]);
    }
  }

  lemma {:induction false} RestNoLf(data: Bytes)
    ensures LF !in Rest(data)
  {
    if data != [] {
      RestNoLf(data[..|data| - 1]);
    }
  }

  /** Splitting resumes from the held remainder: the lines of a longer stream are the lines so
      far, then those of the remainder and what follows it. */
  lemma {:induction false} LinesAppend(a: Bytes, b: Bytes)
    ensures Lines(a + b) == Lines(a) + Lines(Rest(a) + b)
    ensures Rest(a + b) == Rest(Rest(a) + b)
  {
    hide Lines, Rest;
    if b == [] {
      assert a + b == a && Rest(a) + b == Rest(a);
      RestNoLf(a);
      NoLf(Rest(a));
    } else {
      var front, last := b[..|b| - 1], b[|b| - 1];
      LinesAppend(a, front);
      LinesAppendByte(a, front, last);
      assert b == front + [last];
    }
  }

  lemma LinesAppendByte(a: Bytes, b: Bytes, last: byte)
    requires Lines(a + b) == Lines(a) + Lines(Rest(a) + b)
    requires Rest(a + b) == Rest(Rest(a) + b)
    ensures Lines(a + (b + [last])) == Lines(a) + Lines(Rest(a) + (b + [last]))
    ensures Rest(a + (b + [last])) == Rest(Rest(a) + (b + [last]))
  {
    SeqAssoc(a, b, [last]);
    SeqAssoc(Rest(a), b, [last]);
    PushByte(a + b, last);
    PushByte(Rest(a) + b, last);
    SeqAssoc(Lines(a), Lines(Rest(a) + b), Kept(Rest(a + b)));
  }

  lemma PushByte(data: Bytes, b: byte)
    ensures Rest(data + [b]) == if b == LF then [] else Rest(data) + [b]
    ensures Lines(data + [b]) == if b == LF then Lines(data) + Kept(Rest(data)) else Lines(data)
  {
    assert (data + [b])[..|data + [b]| - 1] == data;
  }

  /** Nothing is lost by cutting at the line boundary before the remainder. */
  lemma {:induction false} BoundaryCut(data: Bytes)
    ensures |Rest(data)| <= |data|
    ensures Rest(data[..|data| - |Rest(data)|]) == []
    ensures Lines(data[..|data| - |Rest(data)|]) == Lines(data)
    ensures |Rest(data)| < |data| ==> data[|data| - |Rest(data)| - 1] == LF
  {
    if data == [] || data[|data| - 1] == LF {
      assert data[..|data|] == data;
    } else {
      var front := data[..|data| - 1];
      BoundaryCut(front);
      assert data[..|data| - |Rest(data)|] == front[..|front| - |Rest(front)|];
    }
  }

  /** A line as a program writes it, ended by LF or by CR LF. */
  datatype Written = Written(text: Bytes, cr: bool)

  function WriteOut(ws: seq<Written>): Bytes {
    if ws == [] then [] else ws[0].text + (if ws[0].cr then [CR, LF] else [LF]) + WriteOut(ws[1..])
  }

  function Texts(ws: seq<Written>): seq<Bytes> {
    if ws == [] then [] else (if ws[0].text == [] then [] else [ws[0].text]) + Texts(ws[1..])
  }

  /** Lines read back as they were written, whatever their endings; blank ones are dropped, and what
      follows the last of them is held. */
  lemma {:induction false} WrittenReadBack(ws: seq<Written>, partial: Bytes)
    requires forall w :: w in ws ==> LF !in w.text && (w.cr || w.text == [] || w.text[|w.text| - 1] != CR)
    requires LF !in partial
    ensures Lines(WriteOut(ws) + partial) == Texts(ws) && Rest(WriteOut(ws) + partial) == partial
  {
    hide Lines, Rest;
    if ws == [] {
      assert WriteOut(ws) + partial == partial;
      NoLf(partial);
    } else {
      assert ws[0] in ws;
      var later := WriteOut(ws[1..]) + partial;
      var line := ws[0].text + (if ws[0].cr then [CR, LF] else [LF]);
      SeqAssoc(line, WriteOut(ws[1..]), partial);
      WrittenReadBack(ws[1..], partial);
      OneWritten(ws[0]);
      LinesAppend(line, later);
      assert [] + later == later;
    }
  }

  lemma OneWritten(w: Written)
    requires LF !in w.text && (w.cr || w.text == [] || w.text[|w.text| - 1] != CR)
    ensures var line := w.text + (if w.cr then [CR, LF] else [LF]);
      Lines(line) == (if w.text == [] then [] else [w.text]) && Rest(line) == []
  {
    hide Lines, Rest;
    var part := if w.cr then w.text + [CR] else w.text;
    assert w.text + (if w.cr then [CR, LF] else [LF]) == part + [LF];
    NoLf(part);
    PushByte(part, LF);
    assert w.cr ==> part[..|part| - 1] == w.text;
    assert Kept(part) == if w.text == [] then [] else [w.text];
  }

  // ----- position of one file -----

  datatype FileState = FileState(inode: int, readPos: nat, pending: Bytes)

  datatype Saved = Saved(inode: int, offset: nat)

  /** Where to read on: a fresh or resumed position, a restart after rotation or truncation, or
      simply the position reached so far. */
  function Reconcile(state: Option<FileState>, saved: Option<Saved>, inode: int, size: nat, startAtEnd: bool): FileState {
    match state
    case None =>
      if saved.Some? && saved.value.inode == inode
      then FileState(inode, if saved.value.offset < size then saved.value.offset else size, [])
      else FileState(inode, if startAtEnd then size else 0, [])
    case Some(s) =>
      if inode != s.inode then FileState(inode, 0, [])
      else if size < s.readPos then s.(readPos := 0, pending := [])
      else s
  }

  /** What reading on from `s` makes of the first `size` bytes of the file. */
  function Unread(s: FileState, content: Bytes): Bytes {
    if s.readPos <= |content| then s.pending + content[s.readPos..] else s.pending
  }

  function Advance(s: FileState, content: Bytes): FileState {
    if s.readPos < |content| then s.(readPos := |content|, pending := Rest(Unread(s, content))) else s
  }

  function Emitted(s: FileState, content: Bytes): seq<Bytes> {
    if s.readPos < |content| then Lines(Unread(s, content)) else []
  }

  function Committed(s: FileState): nat {
    if s.readPos >= |s.pending| then s.readPos - |s.pending| else 0
  }

  /** The branches of `Reconcile`, as what a pass then delivers and holds. */
  lemma WhereItGoesOn(was: Option<FileState>, known: Option<Saved>, inode: int, c: Bytes, startAtEnd: bool)
    ensures var s := Reconcile(was, known, inode, |c|, startAtEnd);
      && (was.Some? && (was.value.inode != inode || |c| < was.value.readPos) ==>
           Emitted(s, c) == Lines(c) && Advance(s, c) == FileState(inode, |c|, Rest(c)))
      && (was.Some? && was.value.inode == inode && was.value.readPos < |c| ==>
           var unread := was.value.pending + c[was.value.readPos..];
           Emitted(s, c) == Lines(unread) && Advance(s, c) == FileState(inode, |c|, Rest(unread)))
      && (was.Some? && was.value.inode == inode && was.value.readPos == |c| ==>
           Emitted(s, c) == [] && Advance(s, c) == was.value)
      && (was.None? ==>
           var from := if known.Some? && known.value.inode == inode then
                         if known.value.offset < |c| then known.value.offset else |c|
                       else if startAtEnd then |c| else 0;
           Emitted(s, c) == Lines(c[from..]) && Advance(s, c) == FileState(inode, |c|, Rest(c[from..])))
  {
    hide Advance, Emitted, Lines, Rest;
    var s := Reconcile(was, known, inode, |c|, startAtEnd);
    if was.Some? && was.value.inode == inode && was.value.readPos <= |c| {
      ReadsOn(s, c);
    } else {
      ReadsFrom(s, c);
      assert c[0..] == c;
    }
  }

  lemma ReadsOn(s: FileState, c: Bytes)
    requires s.readPos <= |c|
    ensures s.readPos < |c| ==>
      var unread := s.pending + c[s.readPos..];
      Emitted(s, c) == Lines(unread) && Advance(s, c) == FileState(s.inode, |c|, Rest(unread))
    ensures s.readPos == |c| ==> Emitted(s, c) == [] && Advance(s, c) == s
  {
    hide Lines, Rest;
  }

  lemma ReadsFrom(s: FileState, c: Bytes)
    requires s.readPos <= |c| && s.pending == []
    ensures Emitted(s, c) == Lines(c[s.readPos..])
    ensures Advance(s, c) == FileState(s.inode, |c|, Rest(c[s.readPos..]))
  {
    hide Lines, Rest;
    LinesOfNothing();
    ReadsOn(s, c);
    assert s.pending + c[s.readPos..] == c[s.readPos..];
    if s.readPos == |c| {
      assert c[s.readPos..] == [];
    }
  }

  lemma LinesOfNothing()
    ensures Lines([]) == [] && Rest([]) == []
  {}

  // ----- the tailer -----

  /** The watched path (`present` means an existing regular file), the offsets file, and the
      lines handed downstream. */
  class World {
    var present: bool
    var inode: int
    var content: Bytes
    var saved: Option<Saved>
    var delivered: seq<Bytes>

    constructor ()
      ensures !present && saved == None && delivered == []
    {
      present, inode, content, saved, delivered := false, 0, [], None, [];
    }
  }

  class FileTailer {
    const world: World
    const readSize: nat
    const startAtEnd: bool
    var state: Option<FileState>
    var persisted: Option<Saved>
    var configured: bool

    constructor (world: World, readSize: nat, startAtEnd: bool)
      ensures this.world == world && this.readSize == readSize && this.startAtEnd == startAtEnd
      ensures state == None && !configured
    {
      this.world, this.readSize, this.startAtEnd := world, readSize, startAtEnd;
      state, persisted, configured := None, None, false;
    }

    /** One pass: load offsets once, scan, save. With a positive read size the state and the
        lines delivered do not depend on how the reads are cut. */
    method PollOnce() returns (emitted: nat)
      requires readSize > 0
      modifies this, world
      ensures configured
      ensures world.present == old(world.present) && world.inode == old(world.inode) && world.content == old(world.content)
      ensures var before := if old(configured) then old(persisted) else old(world.saved);
        var resumed := Reconcile(old(state), before, world.inode, |world.content|, startAtEnd);
        if world.present then
          && state == Some(Advance(resumed, world.content))
          && world.delivered == old(world.delivered) + Emitted(resumed, world.content)
          && emitted == |Emitted(resumed, world.content)|
          && persisted == Some(Saved(state.value.inode, Committed(state.value)))
          && world.saved == persisted
        else
          && state == old(state) && world.delivered == old(world.delivered) && emitted == 0
          && (state == None ==> persisted == before)
          && world.saved == persisted
      ensures (world.present && old(state).Some?
        && (old(state).value.inode != world.inode || |world.content| < old(state).value.readPos)) ==>
          && world.delivered == old(world.delivered) + Lines(world.content)
          && state == Some(FileState(world.inode, |world.content|, Rest(world.content)))
      ensures (world.present && old(state).Some?
        && old(state).value.inode == world.inode && old(state).value.readPos <= |world.content|) ==>
          var unread := old(state).value.pending + world.content[old(state).value.readPos..];
          if old(state).value.readPos == |world.content| then
            world.delivered == old(world.delivered) && state == old(state)
          else
            && world.delivered == old(world.delivered) + Lines(unread)
            && state == Some(FileState(world.inode, |world.content|, Rest(unread)))
      ensures world.present && old(state).None? ==>
        var known := if old(configured) then old(persisted) else old(world.saved);
        var from := if known.Some? && known.value.inode == world.inode then
                      if known.value.offset < |world.content| then known.value.offset else |world.content|
                    else if startAtEnd then |world.content| else 0;
        && world.delivered == old(world.delivered) + Lines(world.content[from..])
        && state == Some(FileState(world.inode, |world.content|, Rest(world.content[from..])))
    {
      if !configured {
        persisted := world.saved;
        configured := true;
      }
      hide Reconcile, Advance, Emitted, Lines, Rest;
      emitted := ScanFile();
      if emitted > 0 {
        SaveOffsets();
      }
      SaveOffsets();
    }

    /** Where reading goes on, branch by branch: a file seen for the first time, resumed, rotated, truncated
        or grown. */
    method ScanFile() returns (emitted: nat)
      requires readSize > 0
      modifies this`state, world`delivered
      ensures (world.present && old(state).Some?
        && (old(state).value.inode != world.inode || |world.content| < old(state).value.readPos)) ==>
          && world.delivered == old(world.delivered) + Lines(world.content)
          && state == Some(FileState(world.inode, |world.content|, Rest(world.content)))
      ensures (world.present && old(state).Some?
        && old(state).value.inode == world.inode && old(state).value.readPos <= |world.content|) ==>
          var unread := old(state).value.pending + world.content[old(state).value.readPos..];
          if old(state).value.readPos == |world.content| then
            world.delivered == old(world.delivered) && state == old(state)
          else
            && world.delivered == old(world.delivered) + Lines(unread)
            && state == Some(FileState(world.inode, |world.content|, Rest(unread)))
      ensures world.present && old(state).None? ==>
        var known := persisted;
        var from := if known.Some? && known.value.inode == world.inode then
                      if known.value.offset < |world.content| then known.value.offset else |world.content|
                    else if startAtEnd then |world.content| else 0;
        && world.delivered == old(world.delivered) + Lines(world.content[from..])
        && state == Some(FileState(world.inode, |world.content|, Rest(world.content[from..])))
      ensures !world.present ==> state == old(state) && world.delivered == old(world.delivered) && emitted == 0
      ensures world.present ==>
        var resumed := Reconcile(old(state), persisted, world.inode, |world.content|, startAtEnd);
        && state == Some(Advance(resumed, world.content))
        && world.delivered == old(world.delivered) + Emitted(resumed, world.content)
        && emitted == |Emitted(resumed, world.content)|
    {
      if !world.present {
        return 0;
      }
      var size := |world.content|;
      if state.None? {
        if persisted.Some? && persisted.value.inode == world.inode {
          state := Some(FileState(world.inode, if persisted.value.offset < size then persisted.value.offset else size, []));
        } else {
          state := Some(FileState(world.inode, if startAtEnd then size else 0, []));
        }
      } else if world.inode != state.value.inode {
        state := Some(FileState(world.inode, 0, []));
      } else if size < state.value.readPos {
        state := Some(state.value.(readPos := 0, pending := []));
      }
      emitted := ReadNew(size);
      WhereItGoesOn(old(state), persisted, world.inode, world.content, startAtEnd);
    }

    /** Reads up to `size` in chunks, delivering complete lines as they appear. */
    method ReadNew(size: nat) returns (emitted: nat)
      requires readSize > 0 && state.Some? && size == |world.content|
      modifies this`state, world`delivered
      ensures state == Some(Advance(old(state).value, world.content))
      ensures world.delivered == old(world.delivered) + Emitted(old(state).value, world.content)
      ensures emitted == |Emitted(old(state).value, world.content)|
    {
      hide Lines, Rest;
      emitted := 0;
      var s := state.value;
      if size <= s.readPos {
        return;
      }
      ghost var base := s.pending;
      ghost var from := s.readPos;
      assert base + world.content[from..from] == base;
      ghost var seen := base;
      while s.readPos < size
        invariant from <= s.readPos <= size
        invariant s == FileState(old(state).value.inode, s.readPos, if s.readPos == from then base else Rest(seen))
        invariant seen == base + world.content[from..s.readPos]
        invariant world.delivered == old(world.delivered) + (if s.readPos == from then [] else Lines(seen))
        invariant emitted == if s.readPos == from then 0 else |Lines(seen)|
        invariant state == Some(s)
        decreases size - s.readPos
      {
        var n := if readSize < size - s.readPos then readSize else size - s.readPos;
        var chunk := world.content[s.readPos..s.readPos + n];
        assert seen + chunk == base + world.content[from..s.readPos + n];
        var lines, remainder := SplitLines(s.pending + chunk);
        if s.readPos > from {
          LinesAppend(seen, chunk);
          SeqAssoc(old(world.delivered), Lines(seen), lines);
        }
        seen := seen + chunk;
        s := s.(readPos := s.readPos + n, pending := remainder);
        state := Some(s);
        world.delivered := world.delivered + lines;
        emitted := emitted + |lines|;
      }
      assert world.content[from..size] == world.content[from..];
    }

    method SaveOffsets()
      modifies this`persisted, world`saved
      ensures persisted == (if state.Some? then Some(Saved(state.value.inode, Committed(state.value))) else old(persisted))
      ensures world.saved == persisted
    {
      if state.Some? {
        var s := state.value;
        persisted := Some(Saved(s.inode, if s.readPos - |s.pending| > 0 then s.readPos - |s.pending| else 0));
      }
      world.saved := persisted;
    }
  }
}
