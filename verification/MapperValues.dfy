/** The values that the mapper of ulpf/normalize/mapper.py writes: what a finished record reads back at the
    target of each rule, in terms of the source fields. */
module MapperValues {
  import opened Core
  import opened NestedRecord
  import opened Mapper

  // ----- sources -----

  /** Source n is the first of the list that is supplied and not empty. */
  predicate FirstSupplied(sources: seq<string>, fields: Fields, n: int) {
    && 0 <= n < |sources| && Supplied(fields, sources[n])
    && forall j :: 0 <= j < n ==> !Supplied(fields, sources[j])
  }

  predicate Supplied(fields: Fields, key: string) {
    key in fields && fields[key] != Null && fields[key] != Text("")
  }

  predicate Joins(m: FieldMapping) {
    m.join.Some? && |m.sources| > 1
  }

  /** The supplied ones of a list are those of its front, then those of its rest. */
  lemma {:induction false} SuppliedInOrder(a: seq<string>, b: seq<string>, fields: Fields)
    ensures PresentOnes(a + b, fields) == PresentOnes(a, fields) + PresentOnes(b, fields)
  {
    if a == [] {
      assert a + b == b;
    } else {
      assert (a + b)[1..] == a[1..] + b;
      SuppliedInOrder(a[1..], b, fields);
      SeqAssoc(if Present(FieldOf(fields, a[0])) then [a[0]] else [], PresentOnes(a[1..], fields), PresentOnes(b, fields));
    }
  }

  lemma SuppliedAlone(key: string, fields: Fields)
    ensures PresentOnes([key], fields) == if Supplied(fields, key) then [key] else []
  {
    assert [key][1..] == [] && PresentOnes([], fields) == [];
  }

  lemma {:induction false} FirstPresent(sources: seq<string>, fields: Fields, n: nat)
    requires FirstSupplied(sources, fields, n)
    ensures PresentOnes(sources, fields) != [] && PresentOnes(sources, fields)[0] == sources[n]
  {
    if n > 0 {
      assert !Supplied(fields, sources[0]);
      FirstPresent(sources[1..], fields, n - 1);
    }
  }

  /** Joined texts are joined in order, with the separator between them and nowhere else. */
  lemma {:induction false} JoinedInOrder(a: seq<string>, b: seq<string>, fields: Fields, str: Value -> string, separator: string)
    requires a != [] && b != []
    ensures JoinAll(a + b, fields, str, separator)
      == JoinAll(a, fields, str, separator) + separator + JoinAll(b, fields, str, separator)
    ensures forall k :: JoinAll([k], fields, str, separator) == str(if k in fields then fields[k] else Null)
  {
    if |a| == 1 {
      assert (a + b)[1..] == b;
    } else {
      assert (a + b)[1..] == a[1..] + b;
      JoinedInOrder(a[1..], b, fields, str, separator);
      var one, rest := str(FieldOf(fields, a[0])) + separator, JoinAll(a[1..], fields, str, separator);
      assert one + (rest + separator + JoinAll(b, fields, str, separator))
          == one + rest + separator + JoinAll(b, fields, str, separator);
    }
  }

  // ----- what is read back -----

  /** What a rule makes of a source value: its translation, or the default where the table lacks it, or the
      coerced value where there is no table. */
  predicate MadeOf(got: Option<Value>, m: FieldMapping, conv: Conversions, raw: Value) {
    match m.table
    case Some(table) => got == Some(if conv.str(raw) in table then table[conv.str(raw)] else m.default)
    case None => got == conv.coerce(raw, m.kind)
  }

  lemma ResolvesTo(m: FieldMapping, fields: Fields, conv: Conversions)
    ensures forall n :: FirstSupplied(m.sources, fields, n) && !Joins(m) ==>
      ResolveSource(m, fields, conv) == (fields[m.sources[n]], [m.sources[n]])
    ensures (exists n :: FirstSupplied(m.sources, fields, n)) && Joins(m) ==>
      var supplied := PresentOnes(m.sources, fields);
      ResolveSource(m, fields, conv) == (Text(JoinAll(supplied, fields, conv.str, m.join.value)), supplied)
    ensures (forall k :: k in m.sources ==> !Supplied(fields, k)) ==> ResolveSource(m, fields, conv) == (Null, [])
  {
    forall n | FirstSupplied(m.sources, fields, n)
      ensures PresentOnes(m.sources, fields) != [] && PresentOnes(m.sources, fields)[0] == m.sources[n]
    {
      FirstPresent(m.sources, fields, n);
    }
    if forall k :: k in m.sources ==> !Supplied(fields, k) {
      NoneSupplied(m.sources, fields);
    }
  }

  lemma {:induction false} NoneSupplied(sources: seq<string>, fields: Fields)
    requires forall k :: k in sources ==> !Supplied(fields, k)
    ensures PresentOnes(sources, fields) == []
  {
    if sources != [] {
      assert sources[0] in sources;
      NoneSupplied(sources[1..], fields);
    }
  }

  /** A target whose rule writes something, and which nothing later overlaps. */
  ghost predicate Undisturbed(c: Call, i: nat)
    requires c.Succeeds()
  {
    && i < |c.spec.fields| && Writes(c.spec, c.fields, c.conv, i)
    && (forall j :: i < j < |c.spec.fields| && Writes(c.spec, c.fields, c.conv, j) ==>
          Apart(c.spec.fields[j].0, c.spec.fields[i].0))
    && (forall w :: w in Stamps(c.uid, c.rawHash, c.version) ==> Apart(w.path, c.spec.fields[i].0))
    && (c.spec.unmapped.DropAll? || c.spec.fields[i].0[0] != "unmapped")
  }

  /** Such a target holds what its rule makes of its first supplied source, or of all of them joined, or
      the default when none is supplied. */
  lemma TargetHolds(c: Call, i: nat)
    requires c.Succeeds() && Undisturbed(c, i)
    ensures var m, got := c.spec.fields[i].1, GetNested(Apply(c.Writes()), c.spec.fields[i].0);
      && (forall n :: FirstSupplied(m.sources, c.fields, n) && !Joins(m) ==> MadeOf(got, m, c.conv, c.fields[m.sources[n]]))
      && ((exists n :: FirstSupplied(m.sources, c.fields, n)) && Joins(m) ==>
           MadeOf(got, m, c.conv, Text(JoinAll(PresentOnes(m.sources, c.fields), c.fields, c.conv.str, m.join.value))))
      && ((forall k :: k in m.sources ==> !Supplied(c.fields, k)) ==> got == Some(m.default))
  {
    hide FirstSupplied, Joins, GetNested, Apply, AllWrites, PresentOnes, JoinAll;
    var m := c.spec.fields[i].1;
    MappedReadsBack(c.spec, c.fields, c.conv, c.uid, c.rawHash, c.version, i);
    ResolvesTo(m, c.fields, c.conv);
    var (raw, used) := ResolveSource(m, c.fields, c.conv);
    RawIsMade(m, c.fields, c.conv);
    FirstIsSupplied(m.sources, c.fields);
  }

  lemma FirstIsSupplied(sources: seq<string>, fields: Fields)
    ensures forall n :: FirstSupplied(sources, fields, n) ==>
      0 <= n < |sources| && sources[n] in fields && fields[sources[n]] != Null
  {}

  lemma RawIsMade(m: FieldMapping, fields: Fields, conv: Conversions)
    requires MapOne(m, fields, conv).Mapped? && MapOne(m, fields, conv).value != Null
    ensures var raw, value := ResolveSource(m, fields, conv).0, MapOne(m, fields, conv).value;
      if raw == Null then value == m.default else MadeOf(Some(value), m, conv, raw)
  {}

  /** When a mapping fails, and as what: a value that cannot be coerced, or a required target that comes to
      nothing. */
  lemma MappingFails(m: FieldMapping, fields: Fields, conv: Conversions)
    ensures var raw, r := ResolveSource(m, fields, conv).0, MapOne(m, fields, conv);
      && (r == Failed(false) <==> raw != Null && m.table.None? && conv.coerce(raw, m.kind).None?)
      && (r == Failed(true) <==>
           m.required && if raw == Null then m.default == Null else MadeOf(Some(Null), m, conv, raw))
  {}

  // ----- class and activity -----

  function Top(key: string): Path {
    [key]
  }

  /** No mapping writes at or below this top-level key. */
  predicate Untouched(spec: Spec, key: string) {
    forall i :: 0 <= i < |spec.fields| ==> spec.fields[i].0[0] != key
  }

  lemma {:induction false} FieldPaths(o: seq<Outcome>, key: string, w: nat)
    requires NoneFails(o) && w < |FieldWrites(o)|
    requires forall i :: 0 <= i < |o| ==> o[i].path[0] != key
    ensures FieldWrites(o)[w].path[0] != key
    decreases |o|
  {
    var init := o[..|o| - 1];
    if w < |FieldWrites(init)| {
      FieldPaths(init, key, w);
    }
  }

  /** The head write of a top-level key reads back unless a mapping writes there. */
  lemma HeadHolds(c: Call, at: nat, key: string)
    requires c.Succeeds() && Untouched(c.spec, key) && key != "metadata" && key != "unmapped"
    requires at < |HeadWrites(c.spec, c.fields, c.conv)| && HeadWrites(c.spec, c.fields, c.conv)[at].path == Top(key)
    requires forall j :: at < j < |HeadWrites(c.spec, c.fields, c.conv)| ==>
      HeadWrites(c.spec, c.fields, c.conv)[j].path[0] != key
    ensures GetNested(Apply(c.Writes()), Top(key)) == Some(HeadWrites(c.spec, c.fields, c.conv)[at].value)
  {
    hide HeadWrites, FieldWrites, TailWrites, Apply, GetNested;
    var head, o := HeadWrites(c.spec, c.fields, c.conv), Outcomes(c.spec, c.fields, c.conv);
    var writes := c.Writes();
    forall j | at < j < |writes|
      ensures Apart(writes[j].path, Top(key))
    {
      if j >= |head| + |FieldWrites(o)| {
        TailPaths(c.spec, c.fields, Consumed(c.spec, c.fields, c.conv), c.uid, c.rawHash, c.version, j - |head| - |FieldWrites(o)|);
      } else if j >= |head| {
        FieldPaths(o, key, j - |head|);
      }
    }
    WriteReadsBack(writes, at);
  }

  lemma TailPaths(spec: Spec, fields: Fields, consumed: set<string>, uid: string, rawHash: string, version: string, l: nat)
    requires l < |TailWrites(spec, fields, consumed, uid, rawHash, version)|
    ensures var p := TailWrites(spec, fields, consumed, uid, rawHash, version)[l].path; p[0] == "metadata" || p[0] == "unmapped"
  {}

  /** The record names its class, category, activity and type; the type is a hundred times the class plus
      the activity. */
  lemma ClassHolds(c: Call)
    requires c.Succeeds()
    requires Untouched(c.spec, "class_uid") && Untouched(c.spec, "category_uid")
    requires Untouched(c.spec, "activity_id") && Untouched(c.spec, "type_uid")
    ensures var record := Apply(c.Writes());
      && GetNested(record, Top("class_uid")) == Some(Number(c.spec.classUid))
      && GetNested(record, Top("category_uid")) == Some(Number(c.spec.categoryUid))
      && forall id :: IsActivity(c, id) ==>
           && GetNested(record, Top("activity_id")) == Some(Number(id))
           && GetNested(record, Top("type_uid")) == Some(Number(c.spec.classUid * 100 + id))
  {
    var n := |c.spec.constants|;
    var head := HeadWrites(c.spec, c.fields, c.conv);
    hide GetNested, Apply, Call.Writes;
    assert head[n].path == Top("class_uid") && head[n + 1].path == Top("category_uid");
    HeadHolds(c, n, "class_uid");
    HeadHolds(c, n + 1, "category_uid");
    if ActivityId(c.spec.activity, c.fields, c.conv).Some? {
      assert head[n + 2].path == Top("activity_id") && head[n + 3].path == Top("type_uid");
      HeadHolds(c, n + 2, "activity_id");
      HeadHolds(c, n + 3, "type_uid");
    }
  }

  /** The activity is fixed, or translated from its field, or the default. */
  predicate IsActivity(c: Call, id: int) {
    match c.spec.activity
    case Fixed(fixed) => id == fixed
    case From(source, table, default) =>
      if Supplied(c.fields, source) && c.conv.str(c.fields[source]) in table
      then id == table[c.conv.str(c.fields[source])] else default == Some(id)
  }
}
