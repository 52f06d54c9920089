/** Crash-safe compaction of one partition, ulpf/sinks/compaction.py, as a transition system with
    one step per file-system operation; other part files may appear at any time and the process
    may die between any two steps. */
module Compaction {
  import opened Core

  datatype Row = Row(content: string)

  /** A Parquet file, by its name and its rows. */
  datatype File = File(name: string, rows: seq<Row>)

  // ----- slicing -----

  /** Rows per output file for an estimated target size. */
  function RowsPerFile(rows: nat, bytesBefore: nat, targetBytes: nat): (r: nat)
    ensures r >= 1
    ensures rows == 0 ==> r == 1
    ensures rows > 0 ==> IsGreatestFit(r, AverageRowBytes(rows, bytesBefore), targetBytes as real)
  {
    if rows == 0 then 1
    else
      var average := AverageRowBytes(rows, bytesBefore);
      var fit := (targetBytes as real / average).Floor;
      FloorFits(targetBytes as real, average);
      if fit > 1 then fit else 1
  }

  function SizeOf(rows: int, average: real): real {
    Times(rows as real, average)
  }

  function Times(a: real, b: real): real {
    a * b
  }

  /** r rows fit the target and r + 1 do not; a single row need not fit. */
  predicate IsGreatestFit(r: nat, average: real, target: real) {
    r >= 1 && (r == 1 || SizeOf(r, average) <= target) && target < SizeOf(r + 1, average)
  }

  lemma FloorFits(target: real, average: real)
    requires target >= 0.0 && average >= 1.0
    ensures var fit := (target / average).Floor;
      && fit >= 0 && SizeOf(fit, average) <= target < SizeOf(fit + 1, average)
      && (fit == 0 ==> target < SizeOf(2, average))
  {
    var q := target / average;
    var fit := q.Floor;
    assert q >= 0.0 && fit as real <= q < (fit + 1) as real;
    assert Times(q, average) == target;
    Scaled(fit as real, q, average);
    Scaled(q, (fit + 1) as real, average);
    if fit == 0 {
      Scaled(q, 2 as real, average);
    }
  }

  lemma Positive(a: real, b: real)
    requires a > 0.0 && b > 0.0
    ensures a * b > 0.0
  {}

  lemma Scaled(a: real, b: real, c: real)
    requires a <= b && c > 0.0
    ensures Times(a, c) <= Times(b, c)
    ensures a < b ==> Times(a, c) < Times(b, c)
  {
    if a < b {
      Positive(b - a, c);
      assert (b - a) * c == b * c - a * c;
    }
  }

  function AverageRowBytes(rows: nat, bytesBefore: nat): (average: real)
    requires rows > 0
    ensures average >= 1.0
  {
    if bytesBefore as real / rows as real > 1.0 then bytesBefore as real / rows as real else 1.0
  }

  function Slices(table: seq<Row>, rowsPerFile: nat): seq<seq<Row>>
    requires rowsPerFile >= 1
  {
    if table == [] then []
    else if |table| <= rowsPerFile then [table]
    else [table[..rowsPerFile]] + Slices(table[rowsPerFile..], rowsPerFile)
  }

  /** The consecutive slices that `_write_slices` writes. */
  method CutSlices(table: seq<Row>, rowsPerFile: nat) returns (slices: seq<seq<Row>>)
    requires rowsPerFile >= 1
    ensures slices == Slices(table, rowsPerFile)
    ensures Concat(slices) == table
    ensures forall i :: 0 <= i < |slices| ==> 1 <= |slices[i]| <= rowsPerFile
  {
    slices := [];
    var start := 0;
    assert table[0..] == table;
    while start < |table|
      invariant 0 <= start <= |table|
      invariant slices + Slices(table[start..], rowsPerFile) == Slices(table, rowsPerFile)
      decreases |table| - start
    {
      var stop := if start + rowsPerFile < |table| then start + rowsPerFile else |table|;
      SliceStep(table, start, stop, rowsPerFile);
      SeqAssoc(slices, [table[start..stop]], Slices(table[stop..], rowsPerFile));
      slices := slices + [table[start..stop]];
      start := stop;
    }
    assert slices + [] == slices;
    SlicesPartition(table, rowsPerFile);
  }

  lemma SliceStep(table: seq<Row>, start: nat, stop: nat, rowsPerFile: nat)
    requires rowsPerFile >= 1 && start < |table|
    requires stop == if start + rowsPerFile < |table| then start + rowsPerFile else |table|
    ensures Slices(table[start..], rowsPerFile) == [table[start..stop]] + Slices(table[stop..], rowsPerFile)
  {
    var rest := table[start..];
    if |rest| <= rowsPerFile {
      assert table[start..stop] == rest;
    } else {
      assert rest[..rowsPerFile] == table[start..stop] && rest[rowsPerFile..] == table[stop..];
    }
  }

  /** Slicing cuts the table into non-empty pieces of bounded size and loses no row. */
  lemma {:induction false} SlicesPartition(table: seq<Row>, rowsPerFile: nat)
    requires rowsPerFile >= 1
    ensures Concat(Slices(table, rowsPerFile)) == table
    ensures forall i :: 0 <= i < |Slices(table, rowsPerFile)| ==> 1 <= |Slices(table, rowsPerFile)[i]| <= rowsPerFile
  {
    if table != [] {
      if |table| <= rowsPerFile {
        assert Concat([table]) == table + Concat([]);
      } else {
        var later := Slices(table[rowsPerFile..], rowsPerFile);
        SlicesPartition(table[rowsPerFile..], rowsPerFile);
        assert ([table[..rowsPerFile]] + later)[1..] == later;
        assert table == table[..rowsPerFile] + table[rowsPerFile..];
      }
    }
  }

  // ----- state -----

  /** `Writing` has renamed `done` slices into place; `tmp` is the slice written to its temporary
      name, if any. `Unlinking` still has to remove `left`. */
  datatype Phase =
    | Idle
    | Writing(parts: seq<File>, slices: seq<seq<Row>>, done: nat, tmp: Option<File>)
    | Unlinking(left: seq<File>)

  datatype State = State(
    visible: seq<File>,        // files that match part-*.parquet
    leftovers: seq<File>,      // temporary files of dead passes, never matched
    phase: Phase,
    added: multiset<Row>,      // every row that ever appeared in a part file from outside
    surplus: multiset<Row>)    // copies that dead passes left behind

  const START := State([], [], Idle, multiset{}, multiset{})

  datatype Config = Config(minFiles: nat, targetBytes: nat)

  datatype Action =
    | NewPart(file: File)
    | Begin(bytesBefore: nat, order: seq<File>)
    | WriteTmp(name: string)
    | Rename
    | StartUnlinking
    | Unlink
    | Done
    | Crash

  ghost predicate NameFree(s: State, name: string) {
    && (forall f :: f in s.visible ==> f.name != name)
    && (s.phase.Writing? && s.phase.tmp.Some? ==> s.phase.tmp.value.name != name)
  }

  function RowsOf(files: seq<File>): seq<Row> {
    if files == [] then [] else files[0].rows + RowsOf(files[1..])
  }

  function Remove(files: seq<File>, name: string): seq<File> {
    if files == [] then []
    else if files[0].name == name then files[1..]
    else [files[0]] + Remove(files[1..], name)
  }

  /** `order` is the sorted listing of the visible files. */
  ghost predicate Enabled(c: Config, s: State, a: Action) {
    match a
    case NewPart(f) => NameFree(s, f.name)
    case Begin(_, order) => s.phase == Idle && multiset(order) == multiset(s.visible) && |order| >= c.minFiles
    case WriteTmp(name) =>
      s.phase.Writing? && s.phase.tmp.None? && s.phase.done < |s.phase.slices| && NameFree(s, name)
    case Rename => s.phase.Writing? && s.phase.tmp.Some?
    case StartUnlinking => s.phase.Writing? && s.phase.tmp.None? && s.phase.done >= |s.phase.slices|
    case Unlink => s.phase.Unlinking? && s.phase.left != []
    case Done => s.phase.Unlinking? && s.phase.left == []
    case Crash => s.phase != Idle
  }

  /** Rows that are visible twice because a pass is under way. */
  function InProgress(s: State): seq<Row> {
    match s.phase
    case Idle => []
    case Writing(_, slices, done, _) => Concat(if done < |slices| then slices[..done] else slices)
    case Unlinking(left) => RowsOf(left)
  }

  ghost function Step(c: Config, s: State, a: Action): State
    requires Enabled(c, s, a)
  {
    match a
    case NewPart(f) => s.(visible := s.visible + [f], added := s.added + multiset(f.rows))
    case Begin(bytes, order) =>
      var merged := RowsOf(order);
      s.(phase := Writing(order, Slices(merged, RowsPerFile(|merged|, bytes, c.targetBytes)), 0, None))
    case WriteTmp(name) =>
      s.(phase := s.phase.(tmp := Some(File(name, s.phase.slices[s.phase.done]))))
    case Rename =>
      s.(visible := s.visible + [s.phase.tmp.value], phase := s.phase.(done := s.phase.done + 1, tmp := None))
    case StartUnlinking => s.(phase := Unlinking(s.phase.parts))
    case Unlink => s.(visible := Remove(s.visible, s.phase.left[0].name), phase := Unlinking(s.phase.left[1..]))
    case Done => s.(phase := Idle)
    case Crash =>
      s.(phase := Idle, surplus := s.surplus + multiset(InProgress(s)),
         leftovers := if s.phase.Writing? && s.phase.tmp.Some? then s.leftovers + [s.phase.tmp.value] else s.leftovers)
  }

  // ----- invariants -----

  ghost predicate DistinctNames(files: seq<File>) {
    forall i, j :: 0 <= i < j < |files| ==> files[i].name != files[j].name
  }

  /** The pass holds what it needs: its inputs are still there, its outputs are consistent. */
  ghost predicate PassSound(s: State) {
    match s.phase
    case Idle => true
    case Writing(parts, slices, done, tmp) =>
      && DistinctNames(parts) && (forall f :: f in parts ==> f in s.visible)
      && done <= |slices| && multiset(Concat(slices)) == multiset(RowsOf(parts))
      && (tmp.Some? ==>
            done < |slices| && tmp.value.rows == slices[done] && forall f :: f in s.visible ==> f.name != tmp.value.name)
    case Unlinking(left) => DistinctNames(left) && forall f :: f in left ==> f in s.visible
  }

  /** Row for row, what is visible is what was added, what dead passes duplicated, and what the
      running pass has in two places. */
  ghost predicate Balanced(s: State) {
    multiset(RowsOf(s.visible)) == s.added + s.surplus + multiset(InProgress(s))
  }

  ghost predicate Inv(s: State) {
    DistinctNames(s.visible) && PassSound(s) && Balanced(s)
  }

  lemma {:induction false} RowsSnoc(files: seq<File>, f: File)
    ensures RowsOf(files + [f]) == RowsOf(files) + f.rows
  {
    if files == [] {
      assert files + [f] == [f];
      assert RowsOf([f]) == f.rows + RowsOf([]);
    } else {
      assert (files + [f])[1..] == files[1..] + [f];
      RowsSnoc(files[1..], f);
    }
  }

  lemma {:induction false} RemoveKeepsOthers(files: seq<File>, f: File)
    requires f in files && DistinctNames(files)
    ensures DistinctNames(Remove(files, f.name))
    ensures forall g :: g in Remove(files, f.name) <==> g in files && g != f
  {
    var rest := files[1..];
    assert files == [files[0]] + rest;
    if files[0].name == f.name {
      assert files[0] == f;
      assert forall g :: g in rest ==> g != f;
    } else {
      RemoveKeepsOthers(rest, f);
      assert forall g :: g in rest ==> g.name != files[0].name;
    }
  }

  lemma {:induction false} RemoveRows(files: seq<File>, f: File)
    requires f in files && DistinctNames(files)
    ensures multiset(RowsOf(files)) == multiset(RowsOf(Remove(files, f.name))) + multiset(f.rows)
  {
    var rest := files[1..];
    assert multiset(RowsOf(files)) == multiset(files[0].rows) + multiset(RowsOf(rest));
    if files[0].name == f.name {
      assert files[0] == f;
    } else {
      assert files == [files[0]] + rest;
      RemoveRows(rest, f);
      RowsCons(files[0], Remove(rest, f.name));
    }
  }

  lemma RowsCons(f: File, files: seq<File>)
    ensures multiset(RowsOf([f] + files)) == multiset(f.rows) + multiset(RowsOf(files))
  {
    assert ([f] + files)[1..] == files;
    assert RowsOf([f] + files) == f.rows + RowsOf(files);
  }

  /** Listing order does not change what is merged. */
  lemma {:induction false} SameRows(a: seq<File>, b: seq<File>)
    requires multiset(a) == multiset(b) && DistinctNames(b)
    ensures multiset(RowsOf(a)) == multiset(RowsOf(b))
    decreases |a|
  {
    hide RowsOf, Remove, DistinctNames;
    if a == [] {
      assert |b| == |multiset(b)| == |multiset(a)| == 0;
    } else {
      assert a[0] in multiset(b);
      RemoveRows(b, a[0]);
      RemoveKeepsOthers(b, a[0]);
      RemoveMultiset(b, a[0]);
      assert a == [a[0]] + a[1..];
      assert multiset(a[1..]) == multiset(a) - multiset{a[0]};
      RowsCons(a[0], a[1..]);
      SameRows(a[1..], Remove(b, a[0].name));
    }
  }

  lemma {:induction false} RemoveMultiset(files: seq<File>, f: File)
    requires f in files && DistinctNames(files)
    ensures multiset(Remove(files, f.name)) == multiset(files) - multiset{f}
  {
    var rest := files[1..];
    assert files == [files[0]] + rest;
    if files[0].name == f.name {
      assert files[0] == f;
    } else {
      RemoveMultiset(rest, f);
    }
  }

  lemma DistinctListing(a: seq<File>, b: seq<File>)
    requires multiset(a) == multiset(b) && DistinctNames(b)
    ensures DistinctNames(a) && forall f :: f in a ==> f in b
  {
    forall f | f in a
      ensures f in b
    {
      assert f in multiset(a);
    }
    forall i, j | 0 <= i < j < |a|
      ensures a[i].name != a[j].name
    {
      if a[i].name == a[j].name {
        assert a[i] in b && a[j] in b;
        assert a[i] == a[j];
        Twice(a, i, j);
        Once(b, a[i]);
        assert false;
      }
    }
  }

  lemma Twice(a: seq<File>, i: nat, j: nat)
    requires i < j < |a| && a[i] == a[j]
    ensures multiset(a)[a[i]] >= 2
  {
    assert a == a[..j] + [a[j]] + a[j + 1..];
    assert a[i] in a[..j];
    assert multiset(a) == multiset(a[..j]) + multiset{a[j]} + multiset(a[j + 1..]);
  }

  lemma {:induction false} Once(b: seq<File>, f: File)
    requires DistinctNames(b)
    ensures multiset(b)[f] <= 1
  {
    if b != [] {
      assert b == [b[0]] + b[1..];
      Once(b[1..], f);
      if b[0] == f {
        assert f !in b[1..];
      }
    }
  }

  // ----- every step keeps them -----

  lemma BeginKeeps(c: Config, s: State, bytes: nat, order: seq<File>)
    requires Inv(s) && Enabled(c, s, Begin(bytes, order))
    ensures Inv(Step(c, s, Begin(bytes, order)))
  {
    DistinctListing(order, s.visible);
    SlicesPartition(RowsOf(order), RowsPerFile(|RowsOf(order)|, bytes, c.targetBytes));
    var next := Step(c, s, Begin(bytes, order));
    assert InProgress(next) == [] by {
      if next.phase.slices != [] {
        assert next.phase.slices[..0] == [];
      }
    }
  }

  lemma OneMoreSlice(slices: seq<seq<Row>>, done: nat)
    requires done < |slices|
    ensures Concat(if done + 1 < |slices| then slices[..done + 1] else slices)
         == Concat(slices[..done]) + slices[done]
  {
    hide Concat;
    assert slices[..done + 1] == slices[..done] + [slices[done]];
    ConcatSnoc(slices[..done], slices[done]);
    assert done + 1 == |slices| ==> slices[..done + 1] == slices;
  }

  lemma RenameKeeps(c: Config, s: State)
    requires Inv(s) && Enabled(c, s, Rename)
    ensures Inv(Step(c, s, Rename))
  {
    hide RowsOf, Concat;
    var next := Step(c, s, Rename);
    var renamed := s.phase.tmp.value;
    OneMoreSlice(s.phase.slices, s.phase.done);
    assert InProgress(next) == InProgress(s) + renamed.rows;
    assert Balanced(next) by {
      RowsSnoc(s.visible, renamed);
      assert multiset(RowsOf(next.visible)) == multiset(RowsOf(s.visible)) + multiset(renamed.rows);
      assert multiset(InProgress(next)) == multiset(InProgress(s)) + multiset(renamed.rows);
    }
  }

  lemma UnlinkKeeps(c: Config, s: State)
    requires Inv(s) && Enabled(c, s, Unlink)
    ensures Inv(Step(c, s, Unlink))
  {
    hide RowsOf, Concat;
    var next := Step(c, s, Unlink);
    var f, left := s.phase.left[0], s.phase.left;
    assert f in left;
    RemoveRows(s.visible, f);
    RemoveKeepsOthers(s.visible, f);
    assert left == [f] + left[1..];
    RowsCons(f, left[1..]);
    forall g | g in left[1..]
      ensures g in next.visible
    {
      assert g.name != f.name;
    }
    Cancel(multiset(RowsOf(next.visible)), s.added + s.surplus + multiset(RowsOf(left[1..])), multiset(f.rows));
  }

  lemma NewPartKeeps(c: Config, s: State, f: File)
    requires Inv(s) && Enabled(c, s, NewPart(f))
    ensures Inv(Step(c, s, NewPart(f)))
  {
    hide RowsOf, Concat;
    RowsSnoc(s.visible, f);
    assert multiset(RowsOf(s.visible) + f.rows) == multiset(RowsOf(s.visible)) + multiset(f.rows);
  }

  /** The other steps change no visible file. */
  lemma QuietKeeps(c: Config, s: State, a: Action)
    requires Inv(s) && Enabled(c, s, a) && (a.WriteTmp? || a.StartUnlinking? || a.Done? || a.Crash?)
    ensures Inv(Step(c, s, a))
  {
    hide Concat, Slices, RowsPerFile, Remove;
  }

  lemma StepKeeps(c: Config, s: State, a: Action)
    requires Inv(s) && Enabled(c, s, a)
    ensures Inv(Step(c, s, a))
  {
    hide *;
    match a {
      case NewPart(f) => NewPartKeeps(c, s, f);
      case Begin(bytes, order) => BeginKeeps(c, s, bytes, order);
      case Rename => RenameKeeps(c, s);
      case Unlink => UnlinkKeeps(c, s);
      case _ => QuietKeeps(c, s, a);
    }
  }

  // ----- runs -----

  ghost predicate IsRun(c: Config, states: seq<State>, actions: seq<Action>) {
    && |states| == |actions| + 1 && states[0] == START
    && forall i :: 0 <= i < |actions| ==>
         Enabled(c, states[i], actions[i]) && states[i + 1] == Step(c, states[i], actions[i])
  }

  lemma {:induction false} RunKeeps(c: Config, states: seq<State>, actions: seq<Action>, i: nat)
    requires IsRun(c, states, actions) && i < |states|
    ensures Inv(states[i])
  {
    if i > 0 {
      RunKeeps(c, states, actions, i - 1);
      StepKeeps(c, states[i - 1], actions[i - 1]);
    }
  }

  /** At every step of every run, crashes and new files included, each row is visible at least as
      often as it was added. */
  lemma NoRowLost(c: Config, states: seq<State>, actions: seq<Action>, i: nat)
    requires IsRun(c, states, actions) && i < |states|
    ensures states[i].added <= multiset(RowsOf(states[i].visible))
  {
    RunKeeps(c, states, actions, i);
  }

  // ----- when the visible rows are exactly those added -----

  /** A pass that dies now leaves copies behind: it has renamed an output into place and has still to
      unlink an input that holds a row. */
  predicate MidSwap(s: State) {
    match s.phase
    case Idle => false
    case Writing(_, _, done, _) => done > 0
    case Unlinking(left) => exists k :: 0 <= k < |left| && left[k].rows != []
  }

  ghost predicate FullSlices(s: State) {
    s.phase.Writing? ==> forall k :: 0 <= k < |s.phase.slices| ==> s.phase.slices[k] != []
  }

  lemma FullSlicesKeep(c: Config, s: State, a: Action)
    requires FullSlices(s) && Enabled(c, s, a)
    ensures FullSlices(Step(c, s, a))
  {
    hide Slices, RowsPerFile, RowsOf, Remove, Concat, NameFree, InProgress;
    if a.Begin? {
      SlicesPartition(RowsOf(a.order), RowsPerFile(|RowsOf(a.order)|, a.bytesBefore, c.targetBytes));
    }
  }

  lemma {:induction false} AllFull(c: Config, states: seq<State>, actions: seq<Action>, i: nat)
    requires IsRun(c, states, actions) && i < |states|
    ensures FullSlices(states[i])
  {
    hide Enabled, Step, FullSlices;
    if i > 0 {
      AllFull(c, states, actions, i - 1);
      FullSlicesKeep(c, states[i - 1], actions[i - 1]);
    } else {
      StartFull();
    }
  }

  lemma StartFull()
    ensures FullSlices(START)
  {}

  lemma {:induction false} NoRows(files: seq<File>)
    ensures RowsOf(files) == [] <==> forall k :: 0 <= k < |files| ==> files[k].rows == []
  {
    if files != [] {
      NoRows(files[1..]);
      assert forall k :: 1 <= k < |files| ==> files[k] == files[1..][k - 1];
    }
  }

  lemma TwiceExactly(s: State)
    requires FullSlices(s) && PassSound(s)
    ensures InProgress(s) != [] <==> MidSwap(s)
  {
    match s.phase
    case Idle =>
    case Writing(_, slices, done, _) =>
      assert slices[..|slices|] == slices;
      if done > 0 {
        assert slices[..done][0] == slices[0];
      } else if slices != [] {
        assert slices[..0] == [];
      }
    case Unlinking(left) => NoRows(left);
  }

  /** No pass died in the middle of a swap before step i. */
  ghost predicate NoTornSwap(states: seq<State>, actions: seq<Action>, i: nat)
    requires i <= |actions| && i < |states|
  {
    forall j :: 0 <= j < i && actions[j] == Crash ==> !MidSwap(states[j])
  }

  lemma {:induction false} SurplusExactly(c: Config, states: seq<State>, actions: seq<Action>, i: nat)
    requires IsRun(c, states, actions) && i < |states|
    ensures states[i].surplus == multiset{} <==> NoTornSwap(states, actions, i)
  {
    if i > 0 {
      hide Enabled, Step, InProgress, MidSwap, FullSlices, Inv;
      var s := states[i - 1];
      SurplusExactly(c, states, actions, i - 1);
      AllFull(c, states, actions, i - 1);
      RunKeeps(c, states, actions, i - 1);
      SurplusStep(c, s, actions[i - 1]);
    }
  }

  lemma SurplusStep(c: Config, s: State, a: Action)
    requires Enabled(c, s, a) && Inv(s) && FullSlices(s)
    ensures Step(c, s, a).surplus == multiset{} <==> s.surplus == multiset{} && (a == Crash ==> !MidSwap(s))
  {
    hide Slices, RowsPerFile, RowsOf, Remove, Concat, NameFree, InProgress, MidSwap, FullSlices, DistinctNames, Balanced;
    if a == Crash {
      TwiceExactly(s);
      BothEmpty(s.surplus, multiset(InProgress(s)));
    }
  }

  lemma BothEmpty(a: multiset<Row>, b: multiset<Row>)
    ensures a + b == multiset{} <==> a == multiset{} && b == multiset{}
  {
    assert |a + b| == |a| + |b|;
  }

  /** The exact condition, at every step of every run: a query over the part files sees exactly the rows
      added if and only if the running pass is not in the middle of its swap and none died there. */
  lemma VisibleExactly(c: Config, states: seq<State>, actions: seq<Action>, i: nat)
    requires IsRun(c, states, actions) && i < |states|
    ensures multiset(RowsOf(states[i].visible)) == states[i].added
       <==> !MidSwap(states[i]) && NoTornSwap(states, actions, i)
  {
    hide FullSlices, MidSwap, NoTornSwap, InProgress, RowsOf, IsRun;
    var s := states[i];
    RunKeeps(c, states, actions, i);
    SurplusExactly(c, states, actions, i);
    AllFull(c, states, actions, i);
    TwiceExactly(s);
    var twice := multiset(InProgress(s));
    assert InProgress(s) == [] <==> twice == multiset{};
    BothEmpty(s.surplus, twice);
    assert s.added + s.surplus + twice == s.surplus + twice + s.added;
    if multiset(RowsOf(s.visible)) == s.added {
      assert multiset{} + s.added == s.surplus + twice + s.added;
      Cancel(multiset{}, s.surplus + twice, s.added);
    }
  }

  /** Between passes the visible rows are those added and the copies that dead passes left behind. */
  lemma RestIsExact(c: Config, states: seq<State>, actions: seq<Action>, i: nat)
    requires IsRun(c, states, actions) && i < |states| && states[i].phase == Idle
    ensures multiset(RowsOf(states[i].visible)) == states[i].added + states[i].surplus
  {
    RunKeeps(c, states, actions, i);
  }

  // ----- a pass that dies in its swap -----

  ghost predicate Leads(c: Config, s: State, a: Action, next: State) {
    Enabled(c, s, a) && next == Step(c, s, a)
  }

  lemma SixSteps(c: Config, states: seq<State>, actions: seq<Action>)
    requires |states| == 7 && |actions| == 6 && states[0] == START
    requires Leads(c, states[0], actions[0], states[1]) && Leads(c, states[1], actions[1], states[2])
    requires Leads(c, states[2], actions[2], states[3]) && Leads(c, states[3], actions[3], states[4])
    requires Leads(c, states[4], actions[4], states[5]) && Leads(c, states[5], actions[5], states[6])
    ensures IsRun(c, states, actions)
  {
    hide Enabled, Step;
  }

  lemma TwoPartsListed(c: Config, f: File, g: File)
    requires f.name != g.name
    ensures var one := START.(visible := [f], added := multiset(f.rows));
      && Leads(c, START, NewPart(f), one)
      && Leads(c, one, NewPart(g), one.(visible := [f, g], added := multiset(f.rows) + multiset(g.rows)))
  {}

  lemma MergeTwo(c: Config, s: State, f: File, g: File)
    requires s.phase == Idle && s.visible == [f, g] && |f.rows| == |g.rows| == 1 && c.minFiles <= 2 <= c.targetBytes
    ensures Leads(c, s, Begin(2, [f, g]), s.(phase := Writing([f, g], [f.rows + g.rows], 0, None)))
    ensures RowsOf([f, g]) == f.rows + g.rows
  {
    assert RowsOf([g]) == g.rows;
    assert RowsPerFile(2, 2, c.targetBytes) == c.targetBytes;
  }

  lemma SwapDies(c: Config, s: State, merged: File)
    requires s.phase.Writing? && s.phase.slices == [merged.rows] && s.phase.done == 0 && s.phase.tmp == None
    requires NameFree(s, merged.name)
    ensures var written := s.(phase := s.phase.(tmp := Some(merged)));
      var renamed := s.(visible := s.visible + [merged], phase := s.phase.(done := 1));
      && Leads(c, s, WriteTmp(merged.name), written) && Leads(c, written, Rename, renamed)
      && Leads(c, renamed, Crash, renamed.(phase := Idle, surplus := s.surplus + multiset(merged.rows)))
  {
    assert Concat([merged.rows]) == merged.rows + Concat([]);
  }

  /** Two files of one row each are merged, and the process dies before it unlinks them: every query sees
      both rows twice, whatever runs later. */
  lemma CrashDuplicates(c: Config, x: Row, y: Row, names: seq<string>) returns (states: seq<State>)
    requires c.minFiles <= 2 <= c.targetBytes && |names| == 3
    requires names[0] != names[1] && names[1] != names[2] && names[0] != names[2]
    ensures var f, g := File(names[0], [x]), File(names[1], [y]);
      IsRun(c, states, [NewPart(f), NewPart(g), Begin(2, [f, g]), WriteTmp(names[2]), Rename, Crash])
    ensures states[6].phase == Idle && states[6].added == multiset{x, y}
    ensures multiset(RowsOf(states[6].visible)) == multiset{x, y, x, y}
  {
    hide IsRun, RowsOf, Leads;
    var f, g := File(names[0], [x]), File(names[1], [y]);
    var merged := File(names[2], f.rows + g.rows);
    var s1 := START.(visible := [f], added := multiset(f.rows));
    var s2 := s1.(visible := [f, g], added := multiset(f.rows) + multiset(g.rows));
    var s3 := s2.(phase := Writing([f, g], [merged.rows], 0, None));
    var s4 := s3.(phase := s3.phase.(tmp := Some(merged)));
    var s5 := s3.(visible := s2.visible + [merged], phase := s3.phase.(done := 1));
    var s6 := s5.(phase := Idle, surplus := s3.surplus + multiset(merged.rows));
    states := [START, s1, s2, s3, s4, s5, s6];
    TwoPartsListed(c, f, g);
    MergeTwo(c, s2, f, g);
    SwapDies(c, s3, merged);
    RowsSnoc([f, g], merged);
    assert [f, g] + [merged] == [f, g, merged];
    SixSteps(c, states, [NewPart(f), NewPart(g), Begin(2, [f, g]), WriteTmp(names[2]), Rename, Crash]);
  }
}
