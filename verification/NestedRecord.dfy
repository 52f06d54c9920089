/** Nested records and dotted writes, the tree half of ulpf/normalize/mapper.py: what a list of writes
    leaves in a record, and exactly which of them still show in it. */
module NestedRecord {
  import opened Core

  datatype Value =
    | Null
    | Text(text: string)
    | Number(number: int)
    | Other(repr: string)
    | Dict(entries: map<string, Value>)

  type Record = map<string, Value>

  /** A dotted target, split at its dots: never empty. */
  type Path = p: seq<string> | p != [] witness [""]

  // ----- nested records -----

  /** `_set_nested`: intermediate dictionaries are created, and replace whatever is no dictionary. */
  function SetNested(record: Record, path: Path, value: Value): Record
    decreases |path|
  {
    if |path| == 1 then record[path[0] := value]
    else
      var child := if path[0] in record && record[path[0]].Dict? then record[path[0]].entries else map[];
      record[path[0] := Dict(SetNested(child, path[1..], value))]
  }

  function GetNested(record: Record, path: Path): Option<Value>
    decreases |path|
  {
    if path[0] !in record then None
    else if |path| == 1 then Some(record[path[0]])
    else if record[path[0]].Dict? then GetNested(record[path[0]].entries, path[1..])
    else None
  }

  /** Neither path is a prefix of the other. */
  predicate Apart(p: Path, q: Path) {
    !(p <= q) && !(q <= p)
  }

  lemma {:induction false} ReadsBack(record: Record, path: Path, value: Value)
    ensures GetNested(SetNested(record, path, value), path) == Some(value)
    decreases |path|
  {
    if |path| > 1 {
      var child := if path[0] in record && record[path[0]].Dict? then record[path[0]].entries else map[];
      ReadsBack(child, path[1..], value);
    }
  }

  lemma {:induction false} ReadsElsewhere(record: Record, p: Path, value: Value, q: Path)
    requires Apart(p, q)
    ensures GetNested(SetNested(record, p, value), q) == GetNested(record, q)
    decreases |p|
  {
    if p[0] == q[0] {
      assert |p| == 1 ==> p <= q;
      assert |q| == 1 ==> q <= p;
      assert p == [p[0]] + p[1..] && q == [q[0]] + q[1..];
      assert Apart(p[1..], q[1..]);
      var child := if p[0] in record && record[p[0]].Dict? then record[p[0]].entries else map[];
      ReadsElsewhere(child, p[1..], value, q[1..]);
    }
  }

  datatype Write = Write(path: Path, value: Value)

  /** The record after a list of writes. */
  function Apply(writes: seq<Write>): Record {
    if writes == [] then map[]
    else SetNested(Apply(writes[..|writes| - 1]), writes[|writes| - 1].path, writes[|writes| - 1].value)
  }

  /** A write reads back unless a later one is at a prefix or an extension of its path. */
  lemma {:induction false} WriteReadsBack(writes: seq<Write>, i: nat)
    requires i < |writes|
    requires forall j :: i < j < |writes| ==> Apart(writes[j].path, writes[i].path)
    ensures GetNested(Apply(writes), writes[i].path) == Some(writes[i].value)
    decreases |writes|
  {
    var last := writes[|writes| - 1];
    if i == |writes| - 1 {
      ReadsBack(Apply(writes[..i]), last.path, last.value);
    } else {
      WriteReadsBack(writes[..|writes| - 1], i);
      ReadsElsewhere(Apply(writes[..|writes| - 1]), last.path, last.value, writes[i].path);
    }
  }

  lemma ApplySnoc(writes: seq<Write>, w: Write)
    ensures Apply(writes + [w]) == SetNested(Apply(writes), w.path, w.value)
  {
    assert (writes + [w])[..|writes|] == writes;
  }

  // ----- which writes show in the record -----

  predicate Scalar(value: Value) {
    !value.Dict?
  }

  /** A later write at a prefix replaces the value; at an extension it replaces a scalar, while a
      dictionary is added to. */
  predicate Covers(later: Path, path: Path, value: Value) {
    later <= path || (Scalar(value) && path <= later)
  }

  ghost predicate Overwritten(writes: seq<Write>, w: nat)
    requires w < |writes|
  {
    exists j :: w < j < |writes| && Covers(writes[j].path, writes[w].path, writes[w].value)
  }

  function Replace(writes: seq<Write>, w: nat, value: Value): seq<Write>
    requires w < |writes|
  {
    writes[w := Write(writes[w].path, value)]
  }

  /** The record depends on the value: another one of the same kind would give another record. */
  ghost predicate Shows(writes: seq<Write>, w: nat)
    requires w < |writes|
  {
    exists value :: Scalar(value) == Scalar(writes[w].value) && Apply(Replace(writes, w, value)) != Apply(writes)
  }

  // ----- not overwritten: it shows -----

  lemma {:induction false} ReadsBelow(record: Record, p: Path, entries: Record, x: string)
    requires GetNested(record, p) == Some(Dict(entries))
    ensures GetNested(record, p + [x]) == if x in entries then Some(entries[x]) else None
    decreases |p|
  {
    assert (p + [x])[1..] == p[1..] + [x];
    if |p| > 1 {
      ReadsBelow(record[p[0]].entries, p[1..], entries, x);
    } else {
      assert (p + [x])[1..] == [x];
    }
  }

  /** An entry of a dictionary that was written reads back while no later write covers or hits it. */
  lemma {:induction false} EntryStays(writes: seq<Write>, w: nat, entries: Record, x: string)
    requires w < |writes| && writes[w].value == Dict(entries) && x in entries
    requires forall j :: w < j < |writes| ==> Apart(writes[j].path, writes[w].path + [x])
    ensures GetNested(Apply(writes), writes[w].path + [x]) == Some(entries[x])
    decreases |writes|
  {
    var last := writes[|writes| - 1];
    if w == |writes| - 1 {
      ReadsBack(Apply(writes[..w]), last.path, last.value);
      ReadsBelow(Apply(writes), last.path, entries, x);
    } else {
      EntryStays(writes[..|writes| - 1], w, entries, x);
      ReadsElsewhere(Apply(writes[..|writes| - 1]), last.path, last.value, writes[w].path + [x]);
    }
  }

  /** A key longer than every key that later writes use. */
  lemma {:induction false} FreshKey(writes: seq<Write>) returns (x: string)
    ensures forall w :: w in writes ==> x !in w.path
    ensures forall w, k :: w in writes && 0 <= k < |w.path| ==> |w.path[k]| < |x|
    decreases |writes|
  {
    if writes == [] {
      x := "";
    } else {
      var init := writes[..|writes| - 1];
      var shorter := FreshKey(init);
      var last := writes[|writes| - 1];
      x := LongerThan(last.path, shorter);
      assert writes == init + [last];
    }
  }

  lemma {:induction false} LongerThan(keys: seq<string>, start: string) returns (x: string)
    ensures |x| >= |start|
    ensures forall k :: 0 <= k < |keys| ==> |keys[k]| < |x|
  {
    if keys == [] {
      x := start;
    } else {
      var rest := LongerThan(keys[1..], start);
      x := rest + keys[0] + "x";
      forall k | 0 <= k < |keys| ensures |keys[k]| < |x| {
        if k > 0 {
          assert keys[k] == keys[1..][k - 1];
        }
      }
    }
  }

  lemma ScalarShows(writes: seq<Write>, w: nat)
    requires w < |writes| && Scalar(writes[w].value) && !Overwritten(writes, w)
    ensures Shows(writes, w)
  {
    var other := if writes[w].value == Null then Text("") else Null;
    var replaced := Replace(writes, w, other);
    forall j | w < j < |writes|
      ensures Apart(writes[j].path, writes[w].path) && replaced[j] == writes[j]
    {
      assert !Covers(writes[j].path, writes[w].path, writes[w].value);
    }
    WriteReadsBack(writes, w);
    WriteReadsBack(replaced, w);
    assert Scalar(other) && Apply(replaced) != Apply(writes);
  }

  lemma DictShows(writes: seq<Write>, w: nat)
    requires w < |writes| && !Scalar(writes[w].value) && !Overwritten(writes, w)
    ensures Shows(writes, w)
  {
    var x := FreshKey(writes);
    var one, two := map[x := Null], map[x := Text("")];
    var first, second := Replace(writes, w, Dict(one)), Replace(writes, w, Dict(two));
    forall j | w < j < |writes|
      ensures Apart(writes[j].path, writes[w].path + [x]) && first[j] == writes[j] && second[j] == writes[j]
    {
      assert !Covers(writes[j].path, writes[w].path, writes[w].value);
      FreshIsApart(writes[j].path, writes[w].path, x);
    }
    EntryStays(first, w, one, x);
    EntryStays(second, w, two, x);
    assert Apply(first) != Apply(second);
    assert !Scalar(Dict(one)) && !Scalar(Dict(two));
  }

  lemma FreshIsApart(q: Path, p: Path, x: string)
    requires !(q <= p) && x !in q
    ensures Apart(q, p + [x])
  {
    var longer := p + [x];
    assert |q| > |p| ==> q[|p|] in q;
    assert longer[|p|] == x;
    assert |q| <= |p| ==> longer[..|q|] == p[..|q|];
  }

  // ----- overwritten: it does not -----

  /** Two records that differ at most at path p and below. */
  ghost predicate AgreeOff(a: Record, b: Record, p: Path)
    decreases |p|
  {
    && SameOutside(a, b, p[0])
    && (|p| > 1 ==>
          && p[0] in a && p[0] in b && a[p[0]].Dict? && b[p[0]].Dict?
          && AgreeOff(a[p[0]].entries, b[p[0]].entries, p[1..]))
  }

  ghost predicate SameOutside(a: Record, b: Record, key: string) {
    forall k :: k != key ==> (k in a <==> k in b) && (k in a ==> a[k] == b[k])
  }

  function ChildAt(record: Record, key: string): Record {
    if key in record && record[key].Dict? then record[key].entries else map[]
  }

  lemma {:induction false} WritesAgreeOff(record: Record, p: Path, u: Value, v: Value)
    ensures AgreeOff(SetNested(record, p, u), SetNested(record, p, v), p)
    decreases |p|
  {
    if |p| > 1 {
      WritesAgreeOff(ChildAt(record, p[0]), p[1..], u, v);
    }
  }

  /** A write at a prefix of p makes them equal; any other keeps them equal off p. */
  lemma {:induction false} WriteKeepsAgreement(a: Record, b: Record, p: Path, q: Path, u: Value)
    requires AgreeOff(a, b, p)
    ensures q <= p ==> SetNested(a, q, u) == SetNested(b, q, u)
    ensures !(q <= p) ==> AgreeOff(SetNested(a, q, u), SetNested(b, q, u), p)
    decreases |p|
  {
    if q[0] == p[0] {
      if |q| > 1 && |p| > 1 {
        WriteKeepsAgreement(a[p[0]].entries, b[p[0]].entries, p[1..], q[1..], u);
        TailsOrdered(q, p);
        if q <= p {
          SameMap(a, b, p[0], Dict(SetNested(a[p[0]].entries, q[1..], u)));
        }
      } else if |q| == 1 {
        SameMap(a, b, p[0], u);
        assert q <= p;
      } else {
        assert !(q <= p);
      }
    } else {
      assert !(q <= p);
      assert ChildAt(a, q[0]) == ChildAt(b, q[0]);
    }
  }

  lemma TailsOrdered(q: Path, p: Path)
    requires |q| > 1 && |p| > 1 && q[0] == p[0]
    ensures q <= p <==> q[1..] <= p[1..]
  {
    assert q == [q[0]] + q[1..] && p == [p[0]] + p[1..];
  }

  lemma SameMap(a: Record, b: Record, key: string, value: Value)
    requires SameOutside(a, b, key)
    ensures a[key := value] == b[key := value]
  {}

  /** Over scalars, a write at an extension of p makes them equal too. */
  lemma {:induction false} ExtensionMakesEqual(a: Record, b: Record, p: Path, q: Path, u: Value)
    requires AgreeOff(a, b, p) && p <= q && p != q
    requires GetNested(a, p).Some? && Scalar(GetNested(a, p).value)
    requires GetNested(b, p).Some? && Scalar(GetNested(b, p).value)
    ensures SetNested(a, q, u) == SetNested(b, q, u)
    decreases |p|
  {
    assert q[0] == p[0];
    if |p| > 1 {
      TailsOrdered(p, q);
      ExtensionMakesEqual(a[p[0]].entries, b[p[0]].entries, p[1..], q[1..], u);
    }
    assert |q| > 1;
    SameMap(a, b, p[0], Dict(SetNested(ChildAt(a, p[0]), q[1..], u)));
  }

  /** How the two records compare after the first n writes. */
  ghost predicate Compared(writes: seq<Write>, w: nat, value: Value, n: nat)
    requires w < n <= |writes|
  {
    var a, b := Apply(writes[..n]), Apply(Replace(writes, w, value)[..n]);
    if Overwritten(writes[..n], w) then a == b
    else
      && AgreeOff(a, b, writes[w].path)
      && (Scalar(value) ==>
            GetNested(a, writes[w].path) == Some(writes[w].value) && GetNested(b, writes[w].path) == Some(value))
  }

  lemma OverwrittenSnoc(writes: seq<Write>, w: nat, n: nat)
    requires w < n < |writes|
    ensures Overwritten(writes[..n + 1], w)
      <==> Overwritten(writes[..n], w) || Covers(writes[n].path, writes[w].path, writes[w].value)
  {
    var longer, shorter := writes[..n + 1], writes[..n];
    if Overwritten(shorter, w) {
      var j :| w < j < |shorter| && Covers(shorter[j].path, shorter[w].path, shorter[w].value);
      assert Covers(longer[j].path, longer[w].path, longer[w].value);
    }
    if Covers(writes[n].path, writes[w].path, writes[w].value) {
      assert Covers(longer[n].path, longer[w].path, longer[w].value);
    }
    if Overwritten(longer, w) {
      var j :| w < j < |longer| && Covers(longer[j].path, longer[w].path, longer[w].value);
      if j < n {
        assert Covers(shorter[j].path, shorter[w].path, shorter[w].value);
      }
    }
  }

  lemma ComparedStart(writes: seq<Write>, w: nat, value: Value)
    requires w < |writes| && Scalar(value) == Scalar(writes[w].value)
    ensures Compared(writes, w, value, w + 1)
  {
    var before, path := Apply(writes[..w]), writes[w].path;
    var replaced := Replace(writes, w, value);
    assert writes[..w + 1] == writes[..w] + [writes[w]] && replaced[..w + 1] == writes[..w] + [replaced[w]];
    ApplySnoc(writes[..w], writes[w]);
    ApplySnoc(writes[..w], replaced[w]);
    WritesAgreeOff(before, path, writes[w].value, value);
    ReadsBack(before, path, writes[w].value);
    ReadsBack(before, path, value);
    assert !Overwritten(writes[..w + 1], w);
  }

  lemma ComparedStep(writes: seq<Write>, w: nat, value: Value, n: nat)
    requires w < n < |writes| && Scalar(value) == Scalar(writes[w].value) && Compared(writes, w, value, n)
    ensures Compared(writes, w, value, n + 1)
  {
    hide AgreeOff, SetNested, GetNested, Apply, Overwritten;
    var replaced, p, next := Replace(writes, w, value), writes[w].path, writes[n];
    var a, b := Apply(writes[..n]), Apply(replaced[..n]);
    assert writes[..n + 1] == writes[..n] + [next] && replaced[..n + 1] == replaced[..n] + [next];
    ApplySnoc(writes[..n], next);
    ApplySnoc(replaced[..n], next);
    OverwrittenSnoc(writes, w, n);
    if !Overwritten(writes[..n], w) {
      WriteKeepsAgreement(a, b, p, next.path, next.value);
      if Scalar(value) {
        if p <= next.path && p != next.path {
          ExtensionMakesEqual(a, b, p, next.path, next.value);
        } else if !(next.path <= p) {
          ReadsElsewhere(a, next.path, next.value, p);
          ReadsElsewhere(b, next.path, next.value, p);
        }
      }
    }
  }

  lemma {:induction false} ComparedAll(writes: seq<Write>, w: nat, value: Value, n: nat)
    requires w < n <= |writes| && Scalar(value) == Scalar(writes[w].value)
    ensures Compared(writes, w, value, n)
    decreases n
  {
    if n == w + 1 {
      ComparedStart(writes, w, value);
    } else {
      ComparedAll(writes, w, value, n - 1);
      ComparedStep(writes, w, value, n - 1);
    }
  }

  /** A write shows in the finished record if and only if no later one overwrites it. */
  lemma ShowsExactly(writes: seq<Write>, w: nat)
    requires w < |writes|
    ensures Shows(writes, w) <==> !Overwritten(writes, w)
  {
    hide Apply;
    if !Overwritten(writes, w) {
      if Scalar(writes[w].value) {
        ScalarShows(writes, w);
      } else {
        DictShows(writes, w);
      }
    } else {
      forall value | Scalar(value) == Scalar(writes[w].value)
        ensures Apply(Replace(writes, w, value)) == Apply(writes)
      {
        ComparedAll(writes, w, value, |writes|);
        assert writes[..|writes|] == writes;
        assert Replace(writes, w, value)[..|writes|] == Replace(writes, w, value);
      }
    }
  }
}
