/** What one undisturbed pass of ulpf/sinks/compaction.py does to a partition: its files are replaced by
    the slices of their merged rows, in order, and nothing else is left. */
module CompactionPass {
  import opened Core
  import opened Compaction

  ghost predicate LeadsTo(c: Config, s: State, actions: seq<Action>, t: State)
    decreases |actions|
  {
    if actions == [] then s == t
    else Enabled(c, s, actions[0]) && LeadsTo(c, Step(c, s, actions[0]), actions[1..], t)
  }

  lemma {:induction false} LeadsOn(c: Config, s: State, a: seq<Action>, t: State, b: seq<Action>, u: State)
    requires LeadsTo(c, s, a, t) && LeadsTo(c, t, b, u)
    ensures LeadsTo(c, s, a + b, u)
    decreases |a|
  {
    hide Enabled, Step;
    if a == [] {
      assert a + b == b;
    } else {
      assert (a + b)[1..] == a[1..] + b && (a + b)[0] == a[0];
      LeadsOn(c, Step(c, s, a[0]), a[1..], t, b, u);
    }
  }

  lemma OneStep(c: Config, s: State, a: Action)
    requires Enabled(c, s, a)
    ensures LeadsTo(c, s, [a], Step(c, s, a))
  {
    hide Enabled, Step;
    assert [a][1..] == [] && LeadsTo(c, Step(c, s, a), [], Step(c, s, a));
  }

  // ----- writing the outputs -----

  ghost predicate FreshNames(names: seq<string>, visible: seq<File>) {
    && (forall i, j :: 0 <= i < j < |names| ==> names[i] != names[j])
    && (forall i, f :: 0 <= i < |names| && f in visible ==> f.name != names[i])
  }

  function Outputs(names: seq<string>, slices: seq<seq<Row>>): (files: seq<File>)
    requires |names| == |slices|
    ensures |files| == |slices| && forall i :: 0 <= i < |files| ==> files[i] == File(names[i], slices[i])
  {
    seq(|slices|, i requires 0 <= i < |slices| => File(names[i], slices[i]))
  }

  function WriteActions(names: seq<string>): seq<Action> {
    if names == [] then [] else [WriteTmp(names[0]), Rename] + WriteActions(names[1..])
  }

  lemma WriteOne(c: Config, s: State, name: string)
    requires s.phase.Writing? && s.phase.tmp == None && s.phase.done < |s.phase.slices|
    requires forall f :: f in s.visible ==> f.name != name
    ensures LeadsTo(c, s, [WriteTmp(name), Rename],
                    s.(visible := s.visible + [File(name, s.phase.slices[s.phase.done])],
                       phase := s.phase.(done := s.phase.done + 1)))
  {
    hide LeadsTo;
    var written := s.(phase := s.phase.(tmp := Some(File(name, s.phase.slices[s.phase.done]))));
    OneStep(c, s, WriteTmp(name));
    OneStep(c, written, Rename);
    LeadsOn(c, s, [WriteTmp(name)], written, [Rename], Step(c, written, Rename));
    assert [WriteTmp(name)] + [Rename] == [WriteTmp(name), Rename];
  }

  /** From `done` on, the remaining slices go to the remaining names. */
  lemma {:induction false} WriteRest(c: Config, s: State, inputs: seq<File>, names: seq<string>, k: nat)
    requires s.phase.Writing? && s.phase.tmp == None && |names| == |s.phase.slices| && k <= |names|
    requires s.phase.done == k && FreshNames(names, inputs)
    requires s.visible == inputs + Outputs(names, s.phase.slices)[..k]
    ensures LeadsTo(c, s, WriteActions(names[k..]),
                    s.(visible := inputs + Outputs(names, s.phase.slices), phase := s.phase.(done := |names|)))
    decreases |names| - k
  {
    var outs := Outputs(names, s.phase.slices);
    var t := s.(visible := inputs + outs, phase := s.phase.(done := |names|));
    if k == |names| {
      assert outs[..k] == outs && s == t;
    } else {
      hide LeadsTo, Enabled, Step;
      assert names[k..][0] == names[k] && names[k..][1..] == names[k + 1..];
      WriteOne(c, s, names[k]);
      var next := s.(visible := s.visible + [outs[k]], phase := s.phase.(done := k + 1));
      assert outs[..k + 1] == outs[..k] + [outs[k]];
      assert next.visible == inputs + outs[..k + 1];
      WriteRest(c, next, inputs, names, k + 1);
      assert next.(visible := inputs + outs, phase := next.phase.(done := |names|)) == t;
      LeadsOn(c, s, [WriteTmp(names[k]), Rename], next, WriteActions(names[k + 1..]), t);
    }
  }

  // ----- unlinking the inputs -----

  function Unlinks(n: nat): seq<Action> {
    if n == 0 then [] else [Unlink] + Unlinks(n - 1)
  }

  lemma {:induction false} RemoveFromFront(front: seq<File>, back: seq<File>, f: File)
    requires f in front && DistinctNames(front)
    ensures Remove(front + back, f.name) == Remove(front, f.name) + back
  {
    assert (front + back)[1..] == front[1..] + back;
    if front[0].name != f.name {
      assert front == [front[0]] + front[1..];
      RemoveFromFront(front[1..], back, f);
      SeqAssoc([front[0]], Remove(front[1..], f.name), back);
    } else {
      assert front[0] == f;
    }
  }

  lemma RestOf(left: seq<File>)
    requires left != []
    ensures multiset(left[1..]) == multiset(left) - multiset{left[0]}
  {
    assert left == [left[0]] + left[1..];
  }

  /** Unlinking the inputs, in whatever order they were listed, leaves exactly the outputs. */
  lemma {:induction false} UnlinkRest(c: Config, s: State, inputs: seq<File>, outs: seq<File>)
    requires s.phase.Unlinking? && s.visible == inputs + outs && DistinctNames(inputs)
    requires multiset(s.phase.left) == multiset(inputs)
    ensures LeadsTo(c, s, Unlinks(|s.phase.left|), s.(visible := outs, phase := Unlinking([])))
    decreases |s.phase.left|
  {
    var left := s.phase.left;
    assert |left| == |multiset(left)| == |multiset(inputs)| == |inputs|;
    if left == [] {
      assert inputs + outs == outs;
    } else {
      hide LeadsTo, Step, Enabled, Remove, DistinctNames;
      var f := left[0];
      assert f in multiset(left) && f in inputs;
      RemoveFromFront(inputs, outs, f);
      RemoveKeepsOthers(inputs, f);
      RemoveMultiset(inputs, f);
      RestOf(left);
      var next := s.(visible := Remove(inputs, f.name) + outs, phase := Unlinking(left[1..]));
      UnlinkOne(c, s);
      UnlinkRest(c, next, Remove(inputs, f.name), outs);
      LeadsOn(c, s, [Unlink], next, Unlinks(|left| - 1), s.(visible := outs, phase := Unlinking([])));
    }
  }

  lemma UnlinkOne(c: Config, s: State)
    requires s.phase.Unlinking? && s.phase.left != []
    ensures LeadsTo(c, s, [Unlink],
                    s.(visible := Remove(s.visible, s.phase.left[0].name), phase := Unlinking(s.phase.left[1..])))
  {
    OneStep(c, s, Unlink);
  }

  // ----- the pass -----

  lemma {:induction false} RowsOfOutputs(names: seq<string>, slices: seq<seq<Row>>)
    requires |names| == |slices|
    ensures RowsOf(Outputs(names, slices)) == Concat(slices)
  {
    if slices != [] {
      assert Outputs(names, slices)[1..] == Outputs(names[1..], slices[1..]);
      RowsOfOutputs(names[1..], slices[1..]);
    }
  }

  /** A pass that nothing disturbs, over at least the minimum number of files: afterwards the partition holds
      just the outputs, whose rows in order are the rows of the inputs as listed, no output is empty or
      has more rows than fit, and no row was counted as a copy. */
  lemma PassReplacesFiles(c: Config, s: State, bytes: nat, order: seq<File>, names: seq<string>)
    returns (actions: seq<Action>, t: State)
    requires s.phase == Idle && DistinctNames(s.visible) && multiset(order) == multiset(s.visible) && |order| >= c.minFiles
    requires |names| == |Slices(RowsOf(order), RowsPerFile(|RowsOf(order)|, bytes, c.targetBytes))|
    requires FreshNames(names, s.visible)
    ensures LeadsTo(c, s, actions, t) && Crash !in actions
    ensures t == s.(visible := t.visible) && |t.visible| == |names|
    ensures RowsOf(t.visible) == RowsOf(order)
    ensures forall i :: 0 <= i < |names| ==>
      t.visible[i].name == names[i] && 1 <= |t.visible[i].rows| <= RowsPerFile(|RowsOf(order)|, bytes, c.targetBytes)
  {
    hide LeadsTo, RowsPerFile, Slices, RowsOf, DistinctNames;
    var perFile := RowsPerFile(|RowsOf(order)|, bytes, c.targetBytes);
    var slices := Slices(RowsOf(order), perFile);
    SlicesPartition(RowsOf(order), perFile);
    RowsOfOutputs(names, slices);
    var outs := Outputs(names, slices);
    var begun := s.(phase := Writing(order, slices, 0, None));
    var written := s.(visible := s.visible + outs, phase := Writing(order, slices, |names|, None));
    var unlinking := s.(visible := s.visible + outs, phase := Unlinking(order));
    var unlinked := s.(visible := outs, phase := Unlinking([]));
    t := s.(visible := outs);
    OneStep(c, s, Begin(bytes, order));
    OneStep(c, written, StartUnlinking);
    OneStep(c, unlinked, Done);
    hide Step, Enabled;
    assert s.visible + outs[..0] == s.visible && names[0..] == names;
    WriteRest(c, begun, s.visible, names, 0);
    UnlinkRest(c, unlinking, s.visible, outs);
    LeadsOn(c, s, [Begin(bytes, order)], begun, WriteActions(names), written);
    actions := [Begin(bytes, order)] + WriteActions(names);
    LeadsOn(c, s, actions, written, [StartUnlinking], unlinking);
    actions := actions + [StartUnlinking];
    LeadsOn(c, s, actions, unlinking, Unlinks(|order|), unlinked);
    actions := actions + Unlinks(|order|);
    LeadsOn(c, s, actions, unlinked, [Done], t);
    actions := actions + [Done];
    NoCrash(names, |order|);
  }

  lemma {:induction false} NoCrash(names: seq<string>, n: nat)
    ensures Crash !in WriteActions(names) && Crash !in Unlinks(n)
    decreases |names| + n
  {
    if names != [] {
      NoCrash(names[1..], n);
    } else if n > 0 {
      NoCrash(names, n - 1);
    }
  }
}
