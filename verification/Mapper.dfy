/** The field mapper of ulpf/normalize/mapper.py: nested writes into an OCSF record, with the
    bookkeeping of which source fields were consumed. */
module Mapper {
  import opened Core
  import opened NestedRecord

  // ----- definitions -----

  datatype FieldMapping = FieldMapping(
    sources: seq<string>, join: Option<string>, table: Option<map<string, Value>>, default: Value,
    required: bool, kind: string)

  datatype Activity = Fixed(id: int) | From(source: string, table: map<string, int>, default: Option<int>)

  datatype Unmapped = KeepAll | DropAll | KeepOnly(names: seq<string>)

  datatype Spec = Spec(
    classUid: int, categoryUid: int, activity: Activity,
    constants: seq<Write>, fields: seq<(Path, FieldMapping)>, unmapped: Unmapped)

  /** `str(value)` and the type coercions, which may fail. */
  datatype Conversions = Conversions(str: Value -> string, coerce: (Value, string) -> Option<Value>)

  /** Why mapping stopped, with the record built so far. */
  datatype MappingError =
    | RequiredUnresolved(path: Path, partial: Record)
    | NotCoercible(path: Path, partial: Record)

  type Fields = map<string, Value>

  function FieldOf(fields: Fields, key: string): Value {
    if key in fields then fields[key] else Null
  }

  predicate Present(value: Value) {
    value != Null && value != Text("")
  }

  // ----- resolving one mapping -----

  /** The listed sources that are supplied, in order. */
  function PresentOnes(sources: seq<string>, fields: Fields): (present: seq<string>)
    ensures forall k :: k in present <==> k in sources && Present(FieldOf(fields, k))
  {
    if sources == [] then []
    else (if Present(FieldOf(fields, sources[0])) then [sources[0]] else []) + PresentOnes(sources[1..], fields)
  }

  function JoinAll(keys: seq<string>, fields: Fields, str: Value -> string, separator: string): string {
    if keys == [] then ""
    else if |keys| == 1 then str(FieldOf(fields, keys[0]))
    else str(FieldOf(fields, keys[0])) + separator + JoinAll(keys[1..], fields, str, separator)
  }

  /** Source value and the keys it consumes. */
  function ResolveSource(m: FieldMapping, fields: Fields, conv: Conversions): (r: (Value, seq<string>))
    ensures forall k :: k in r.1 ==> k in m.sources && Present(FieldOf(fields, k))
    ensures r.1 == [] <==> PresentOnes(m.sources, fields) == []
    ensures r.1 == [] ==> r.0 == Null
  {
    var present := PresentOnes(m.sources, fields);
    if present == [] then (Null, [])
    else if m.join.Some? && |m.sources| > 1
    then (Text(JoinAll(present, fields, conv.str, m.join.value)), present)
    else
      assert present[0] in present;
      (FieldOf(fields, present[0]), [present[0]])
  }

  /** `derived` tells whether the value was made from the source, or is the default. */
  datatype Mapped = Mapped(value: Value, used: seq<string>, derived: bool) | Failed(required: bool)

  /** `_map_one`; a Null value means that nothing is written. */
  function MapOne(m: FieldMapping, fields: Fields, conv: Conversions): (r: Mapped)
    ensures r.Mapped? ==> r.used == ResolveSource(m, fields, conv).1
  {
    var (raw, used) := ResolveSource(m, fields, conv);
    if raw == Null then
      if m.default == Null && m.required then Failed(true) else Mapped(m.default, used, false)
    else if m.table.Some? then
      var value := if conv.str(raw) in m.table.value then m.table.value[conv.str(raw)] else m.default;
      if value == Null && m.required then Failed(true) else Mapped(value, used, conv.str(raw) in m.table.value)
    else
      var coerced := conv.coerce(raw, m.kind);
      if coerced.None? then Failed(false)
      else if coerced.value == Null && m.required then Failed(true)
      else Mapped(coerced.value, used, true)
  }

  lemma UsedMeansPresent(m: FieldMapping, fields: Fields, conv: Conversions)
    ensures var (raw, used) := ResolveSource(m, fields, conv); raw != Null <==> used != []
  {
    var present := PresentOnes(m.sources, fields);
    if present != [] {
      assert present[0] in present;
    }
  }

  /** A field mapping consumes a field and writes nothing exactly when it is not required and its
      translation table has neither the value nor a default, or its coercion gives None. */
  lemma ConsumedUnwrittenExactly(m: FieldMapping, fields: Fields, conv: Conversions)
    ensures var (raw, used) := ResolveSource(m, fields, conv);
      var r := MapOne(m, fields, conv);
      (r.Mapped? && r.used != [] && r.value == Null) <==>
        && used != [] && !m.required
        && if m.table.Some?
           then (conv.str(raw) !in m.table.value && m.default == Null)
             || (conv.str(raw) in m.table.value && m.table.value[conv.str(raw)] == Null)
           else conv.coerce(raw, m.kind) == Some(Null)
  {
    UsedMeansPresent(m, fields, conv);
  }

  // ----- the whole record -----

  function ActivityId(a: Activity, fields: Fields, conv: Conversions): Option<int> {
    match a
    case Fixed(id) => Some(id)
    case From(source, table, default) =>
      if Present(FieldOf(fields, source)) && conv.str(FieldOf(fields, source)) in table
      then Some(table[conv.str(FieldOf(fields, source))]) else default
  }

  function ActivityUses(a: Activity, fields: Fields): set<string> {
    if a.From? && Present(FieldOf(fields, a.source)) then {a.source} else {}
  }

  /** The field the activity was translated from, when the table holds its value. */
  function ActivityTakes(a: Activity, fields: Fields, conv: Conversions): set<string> {
    if a.From? && Present(FieldOf(fields, a.source)) && conv.str(FieldOf(fields, a.source)) in a.table then {a.source} else {}
  }

  /** The activity rule can consume its field and write nothing, too. */
  lemma ActivityUnwrittenExactly(a: Activity, fields: Fields, conv: Conversions)
    ensures ActivityUses(a, fields) != {} && ActivityId(a, fields, conv).None?
      <==> a.From? && Present(FieldOf(fields, a.source)) && conv.str(FieldOf(fields, a.source)) !in a.table && a.default.None?
  {
    if a.From? && Present(FieldOf(fields, a.source)) {
      assert a.source in ActivityUses(a, fields);
    }
  }

  function HeadWrites(spec: Spec, fields: Fields, conv: Conversions): seq<Write> {
    var activity := ActivityId(spec.activity, fields, conv);
    spec.constants
    + [Write(["class_uid"], Number(spec.classUid)), Write(["category_uid"], Number(spec.categoryUid))]
    + (if activity.Some?
       then [Write(["activity_id"], Number(activity.value)),
             Write(["type_uid"], Number(spec.classUid * 100 + activity.value))]
       else [])
  }

  /** A target with the outcome of its mapping. */
  datatype Outcome = Outcome(path: Path, mapped: Mapped)

  function Outcomes(spec: Spec, fields: Fields, conv: Conversions): (o: seq<Outcome>)
    ensures |o| == |spec.fields|
    ensures forall i :: 0 <= i < |o| ==> o[i] == Outcome(spec.fields[i].0, MapOne(spec.fields[i].1, fields, conv))
  {
    seq(|spec.fields|, i requires 0 <= i < |spec.fields| =>
      Outcome(spec.fields[i].0, MapOne(spec.fields[i].1, fields, conv)))
  }

  predicate NoneFails(o: seq<Outcome>) {
    forall i :: 0 <= i < |o| ==> o[i].mapped.Mapped?
  }

  /** The writes of mappings that succeeded. */
  function FieldWrites(o: seq<Outcome>): seq<Write>
    requires NoneFails(o)
  {
    if o == [] then []
    else
      var last := o[|o| - 1];
      FieldWrites(o[..|o| - 1]) + (if last.mapped.value == Null then [] else [Write(last.path, last.mapped.value)])
  }

  function KeySet(keys: seq<string>): set<string> {
    set k | k in keys
  }

  /** Keys consumed by the mappings that succeeded. */
  function UsedKeys(o: seq<Outcome>): set<string>
    requires NoneFails(o)
  {
    if o == [] then {} else UsedKeys(o[..|o| - 1]) + KeySet(o[|o| - 1].mapped.used)
  }

  function Consumed(spec: Spec, fields: Fields, conv: Conversions): set<string>
    requires NoneFails(Outcomes(spec, fields, conv))
  {
    ActivityUses(spec.activity, fields) + UsedKeys(Outcomes(spec, fields, conv))
  }

  function Stamps(uid: string, rawHash: string, version: string): seq<Write> {
    [Write(["metadata", "uid"], Text(uid)), Write(["metadata", "log_hash"], Text(rawHash)),
     Write(["metadata", "version"], Text(version))]
  }

  function Leftovers(mode: Unmapped, fields: Fields, consumed: set<string>): Option<Fields> {
    match mode
    case DropAll => None
    case KeepAll => Some(map k | k in fields && k !in consumed :: fields[k])
    case KeepOnly(names) => Some(map k | k in fields && k in names && k !in consumed :: fields[k])
  }

  function TailWrites(spec: Spec, fields: Fields, consumed: set<string>, uid: string, rawHash: string, version: string): seq<Write> {
    var left := Leftovers(spec.unmapped, fields, consumed);
    Stamps(uid, rawHash, version) + (if left.Some? then [Write(["unmapped"], Dict(left.value))] else [])
  }

  /** Every write of a successful mapping, in order. */
  function AllWrites(spec: Spec, fields: Fields, conv: Conversions, uid: string, rawHash: string, version: string): seq<Write>
    requires NoneFails(Outcomes(spec, fields, conv))
  {
    HeadWrites(spec, fields, conv) + FieldWrites(Outcomes(spec, fields, conv))
    + TailWrites(spec, fields, Consumed(spec, fields, conv), uid, rawHash, version)
  }

  method WriteAll(record: Record, writes: seq<Write>, ghost before: seq<Write>) returns (r: Record)
    requires record == Apply(before)
    ensures r == Apply(before + writes)
  {
    r := record;
    assert before + [] == before;
    for i := 0 to |writes|
      invariant r == Apply(before + writes[..i])
    {
      ApplySnoc(before + writes[..i], writes[i]);
      assert before + writes[..i + 1] == before + writes[..i] + [writes[i]];
      r := SetNested(r, writes[i].path, writes[i].value);
    }
    assert writes[..|writes|] == writes;
  }

  /** Mapping n is the first that fails. */
  ghost predicate FailsAt(o: seq<Outcome>, n: nat) {
    n < |o| && NoneFails(o[..n]) && o[n].mapped.Failed?
  }

  function Failure(outcome: Outcome, partial: Record): MappingError
    requires outcome.mapped.Failed?
  {
    if outcome.mapped.required then RequiredUnresolved(outcome.path, partial) else NotCoercible(outcome.path, partial)
  }

  ghost function ErrorAt(head: seq<Write>, o: seq<Outcome>, n: nat): MappingError
    requires FailsAt(o, n)
  {
    Failure(o[n], Apply(head + FieldWrites(o[..n])))
  }

  /** The record once a mapped value, if any, is written. */
  function Recorded(record: Record, outcome: Outcome): Record
    requires outcome.mapped.Mapped?
  {
    if outcome.mapped.value == Null then record else SetNested(record, outcome.path, outcome.mapped.value)
  }

  lemma OneMore(head: seq<Write>, o: seq<Outcome>, i: nat)
    requires i < |o| && NoneFails(o[..i]) && o[i].mapped.Mapped?
    ensures NoneFails(o[..i + 1])
    ensures UsedKeys(o[..i + 1]) == UsedKeys(o[..i]) + KeySet(o[i].mapped.used)
    ensures Apply(head + FieldWrites(o[..i + 1])) == Recorded(Apply(head + FieldWrites(o[..i])), o[i])
  {
    assert o[..i + 1] == o[..i] + [o[i]];
    assert o[..i + 1][..i] == o[..i];
    var before := head + FieldWrites(o[..i]);
    if o[i].mapped.value != Null {
      ApplySnoc(before, Write(o[i].path, o[i].mapped.value));
      assert head + FieldWrites(o[..i + 1]) == before + [Write(o[i].path, o[i].mapped.value)];
    } else {
      assert head + FieldWrites(o[..i + 1]) == before;
    }
  }

  lemma NothingMapped(head: seq<Write>, o: seq<Outcome>)
    requires o == []
    ensures Apply(head + FieldWrites(o)) == Apply(head) && UsedKeys(o) == {}
  {
    assert head + FieldWrites(o) == head;
  }

  lemma NoEarlierFailure(o: seq<Outcome>, m: nat, n: nat)
    requires FailsAt(o, m) && n < m
    ensures !FailsAt(o, n)
  {
    assert o[..m][n] == o[n];
  }

  /** The loop over the field mappings, which stops at the first one that fails. */
  method MapFields(spec: Spec, fields: Fields, conv: Conversions, ocsf: Record, ghost head: seq<Write>)
    returns (mapped: Record, consumed: set<string>, failed: Option<MappingError>, ghost at: nat)
    requires ocsf == Apply(head)
    ensures failed.None? ==>
      var o := Outcomes(spec, fields, conv);
      && NoneFails(o)
      && mapped == Apply(head + FieldWrites(o))
      && consumed == Consumed(spec, fields, conv)
    ensures failed.Some? ==>
      var o := Outcomes(spec, fields, conv);
      FailsAt(o, at) && failed.value == ErrorAt(head, o, at)
  {
    hide MapOne, Outcomes, ActivityUses, Apply, SetNested, Recorded, KeySet, FieldWrites, UsedKeys;
    ghost var o := Outcomes(spec, fields, conv);
    mapped, consumed, failed, at := ocsf, ActivityUses(spec.activity, fields), None, 0;
    NothingMapped(head, o[..0]);
    for i := 0 to |spec.fields|
      invariant NoneFails(o[..i])
      invariant mapped == Apply(head + FieldWrites(o[..i]))
      invariant consumed == ActivityUses(spec.activity, fields) + UsedKeys(o[..i])
    {
      var outcome := Outcome(spec.fields[i].0, MapOne(spec.fields[i].1, fields, conv));
      assert outcome == o[i];
      if outcome.mapped.Failed? {
        failed, at := Some(Failure(outcome, mapped)), i;
        return;
      }
      OneMore(head, o, i);
      mapped, consumed := Recorded(mapped, outcome), consumed + KeySet(outcome.mapped.used);
    }
    assert o[..|spec.fields|] == o;
  }

  /** `to_ocsf`: all the writes, or the first failing mapping with what was built before it. */
  method ToOcsf(spec: Spec, fields: Fields, conv: Conversions, uid: string, rawHash: string, version: string)
    returns (r: Result<Record, MappingError>)
    ensures NoneFails(Outcomes(spec, fields, conv)) ==>
      r == Ok(Apply(AllWrites(spec, fields, conv, uid, rawHash, version)))
    ensures forall n :: FailsAt(Outcomes(spec, fields, conv), n) ==>
      r == Err(ErrorAt(HeadWrites(spec, fields, conv), Outcomes(spec, fields, conv), n))
    ensures r.Err? ==> !NoneFails(Outcomes(spec, fields, conv))
  {
    hide MapOne, Outcomes, HeadWrites, TailWrites, Consumed, FieldWrites, Failure;
    ghost var head, o := HeadWrites(spec, fields, conv), Outcomes(spec, fields, conv);
    var ocsf := WriteAll(map[], HeadWrites(spec, fields, conv), []);
    assert [] + head == head;
    var mapped, consumed, failed, at := MapFields(spec, fields, conv, ocsf, head);
    if failed.Some? {
      forall n | FailsAt(o, n) ensures n == at {
        if n < at {
          NoEarlierFailure(o, at, n);
        } else if at < n {
          NoEarlierFailure(o, n, at);
        }
      }
      return Err(failed.value);
    }
    ocsf := WriteAll(mapped, TailWrites(spec, fields, consumed, uid, rawHash, version), head + FieldWrites(o));
    return Ok(ocsf);
  }

  // ----- what the finished record holds -----

  /** Some rule of the definition takes the field's value. */
  ghost predicate ReadBySome(spec: Spec, fields: Fields, conv: Conversions, key: string) {
    || key in ActivityUses(spec.activity, fields)
    || exists i :: 0 <= i < |spec.fields| && key in ResolveSource(spec.fields[i].1, fields, conv).1
  }

  lemma {:induction false} UsedKeysAre(o: seq<Outcome>, key: string)
    requires NoneFails(o)
    ensures key in UsedKeys(o) <==> exists i :: 0 <= i < |o| && key in o[i].mapped.used
    decreases |o|
  {
    if o != [] {
      var init := o[..|o| - 1];
      UsedKeysAre(init, key);
      if key in UsedKeys(o) && key !in o[|o| - 1].mapped.used {
        var i :| 0 <= i < |init| && key in init[i].mapped.used;
        assert key in o[i].mapped.used;
      }
      if i :| 0 <= i < |o| && key in o[i].mapped.used {
        assert i < |init| ==> init[i] == o[i];
      }
    }
  }

  lemma ConsumedIsRead(spec: Spec, fields: Fields, conv: Conversions, key: string)
    requires NoneFails(Outcomes(spec, fields, conv))
    ensures key in Consumed(spec, fields, conv) <==> ReadBySome(spec, fields, conv, key)
    ensures key in Consumed(spec, fields, conv) ==> key in fields && Present(fields[key])
  {
    var o := Outcomes(spec, fields, conv);
    UsedKeysAre(o, key);
    forall i | 0 <= i < |o|
      ensures o[i].mapped.used == ResolveSource(spec.fields[i].1, fields, conv).1
    {
      assert o[i].mapped == MapOne(spec.fields[i].1, fields, conv);
    }
  }

  lemma TailReadsBack(before: seq<Write>, tail: seq<Write>, j: nat)
    requires j < |tail|
    requires forall k :: j < k < |tail| ==> Apart(tail[k].path, tail[j].path)
    ensures GetNested(Apply(before + tail), tail[j].path) == Some(tail[j].value)
  {
    WriteReadsBack(before + tail, |before| + j);
  }

  lemma DifferentKeys(p: Path, q: Path, k: nat)
    requires k < |p| && k < |q| && p[k] != q[k]
    ensures Apart(p, q) && Apart(q, p)
  {
  }

  /** The stamps survive whatever constants and mappings wrote below `metadata`. */
  lemma StampsHold(spec: Spec, fields: Fields, conv: Conversions, uid: string, rawHash: string, version: string)
    requires NoneFails(Outcomes(spec, fields, conv))
    ensures var record := Apply(AllWrites(spec, fields, conv, uid, rawHash, version));
      && GetNested(record, ["metadata", "uid"]) == Some(Text(uid))
      && GetNested(record, ["metadata", "log_hash"]) == Some(Text(rawHash))
      && GetNested(record, ["metadata", "version"]) == Some(Text(version))
  {
    var before := HeadWrites(spec, fields, conv) + FieldWrites(Outcomes(spec, fields, conv));
    var tail := TailWrites(spec, fields, Consumed(spec, fields, conv), uid, rawHash, version);
    forall j, k | 0 <= j < k < |tail| && j < 3
      ensures Apart(tail[k].path, tail[j].path)
    {
      DifferentKeys(tail[k].path, tail[j].path, if k == 3 then 0 else 1);
    }
    TailReadsBack(before, tail, 0);
    TailReadsBack(before, tail, 1);
    TailReadsBack(before, tail, 2);
  }

  predicate Keeps(mode: Unmapped, key: string) {
    mode.KeepAll? || (mode.KeepOnly? && key in mode.names)
  }

  /** What the code keeps: under `keep_all` each field is read by a rule or sits verbatim in
      `unmapped`, and never both; a keep-list does the same for the names it lists. */
  lemma ReadOrKept(spec: Spec, fields: Fields, conv: Conversions, uid: string, rawHash: string, version: string)
    requires NoneFails(Outcomes(spec, fields, conv)) && !spec.unmapped.DropAll?
    ensures var unmapped := GetNested(Apply(AllWrites(spec, fields, conv, uid, rawHash, version)), ["unmapped"]);
      && unmapped.Some? && unmapped.value.Dict?
      && (forall key :: key in unmapped.value.entries <==>
            key in fields && Keeps(spec.unmapped, key) && !ReadBySome(spec, fields, conv, key))
      && forall key :: key in unmapped.value.entries ==> unmapped.value.entries[key] == fields[key]
  {
    var before := HeadWrites(spec, fields, conv) + FieldWrites(Outcomes(spec, fields, conv));
    var consumed := Consumed(spec, fields, conv);
    TailReadsBack(before, TailWrites(spec, fields, consumed, uid, rawHash, version), 3);
    forall key ensures key in consumed <==> ReadBySome(spec, fields, conv, key) {
      ConsumedIsRead(spec, fields, conv, key);
    }
  }

  /** Where the value of mapping i sits among the writes, and what comes after it. */
  lemma {:induction false} FieldWriteAt(o: seq<Outcome>, i: nat) returns (k: nat)
    requires NoneFails(o) && i < |o| && o[i].mapped.value != Null
    ensures k < |FieldWrites(o)| && FieldWrites(o)[k] == Write(o[i].path, o[i].mapped.value)
    ensures forall l :: k < l < |FieldWrites(o)| ==>
      exists j :: i < j < |o| && o[j].mapped.value != Null && o[j].path == FieldWrites(o)[l].path
    decreases |o|
  {
    var init := o[..|o| - 1];
    if i == |o| - 1 {
      k := |FieldWrites(init)|;
    } else {
      k := FieldWriteAt(init, i);
      forall l | k < l < |FieldWrites(o)|
        ensures exists j :: i < j < |o| && o[j].mapped.value != Null && o[j].path == FieldWrites(o)[l].path
      {
        if l < |FieldWrites(init)| {
          var j :| i < j < |init| && init[j].mapped.value != Null && init[j].path == FieldWrites(init)[l].path;
          assert o[j] == init[j];
        } else {
          assert o[|o| - 1].path == FieldWrites(o)[l].path;
        }
      }
    }
  }

  predicate Writes(spec: Spec, fields: Fields, conv: Conversions, i: nat)
    requires i < |spec.fields|
  {
    var mapped := MapOne(spec.fields[i].1, fields, conv);
    mapped.Mapped? && mapped.value != Null
  }

  /** A mapped target reads back its value, unless a later mapping, a stamp or `unmapped` is
      written at a prefix or an extension of it. */
  lemma MappedReadsBack(spec: Spec, fields: Fields, conv: Conversions, uid: string, rawHash: string, version: string, i: nat)
    requires NoneFails(Outcomes(spec, fields, conv)) && i < |spec.fields|
    requires Writes(spec, fields, conv, i)
    requires forall j :: i < j < |spec.fields| && Writes(spec, fields, conv, j) ==>
      Apart(spec.fields[j].0, spec.fields[i].0)
    requires forall w :: w in Stamps(uid, rawHash, version) ==> Apart(w.path, spec.fields[i].0)
    requires spec.unmapped.DropAll? || spec.fields[i].0[0] != "unmapped"
    ensures GetNested(Apply(AllWrites(spec, fields, conv, uid, rawHash, version)), spec.fields[i].0)
         == Some(MapOne(spec.fields[i].1, fields, conv).value)
  {
    hide MapOne, HeadWrites, TailWrites, Consumed, Apply, GetNested, FieldWrites, Stamps;
    var o := Outcomes(spec, fields, conv);
    var k := FieldWriteAt(o, i);
    var head := HeadWrites(spec, fields, conv);
    var tail := TailWrites(spec, fields, Consumed(spec, fields, conv), uid, rawHash, version);
    var later := FieldWrites(o) + tail;
    forall l | k < l < |later| ensures Apart(later[l].path, later[k].path) {
      if l >= |FieldWrites(o)| {
        TailApart(spec, fields, Consumed(spec, fields, conv), uid, rawHash, version, spec.fields[i].0, l - |FieldWrites(o)|);
      }
    }
    TailReadsBack(head, later, k);
    assert head + later == AllWrites(spec, fields, conv, uid, rawHash, version);
  }

  lemma TailApart(spec: Spec, fields: Fields, consumed: set<string>, uid: string, rawHash: string, version: string,
                  path: Path, l: nat)
    requires forall w :: w in Stamps(uid, rawHash, version) ==> Apart(w.path, path)
    requires spec.unmapped.DropAll? || path[0] != "unmapped"
    requires l < |TailWrites(spec, fields, consumed, uid, rawHash, version)|
    ensures Apart(TailWrites(spec, fields, consumed, uid, rawHash, version)[l].path, path)
  {
    var stamps := Stamps(uid, rawHash, version);
    if l < |stamps| {
      assert stamps[l] in stamps;
    }
  }

  // ----- which fields show in the record -----

  /** One call of the mapper. */
  datatype Call = Call(spec: Spec, fields: Fields, conv: Conversions, uid: string, rawHash: string, version: string) {
    predicate Succeeds() {
      NoneFails(Outcomes(spec, fields, conv))
    }

    function Writes(): seq<Write>
      requires Succeeds()
    {
      AllWrites(spec, fields, conv, uid, rawHash, version)
    }

    /** For every write, the fields whose values went into it; into a default, none did. */
    function Sources(): (sources: seq<set<string>>)
      requires Succeeds()
      ensures |sources| == |Writes()|
    {
      HeadSources(spec, fields, conv) + FieldSources(Outcomes(spec, fields, conv))
      + TailSources(spec, fields, Consumed(spec, fields, conv))
    }

    /** Some write that the field went into still shows in the record. */
    ghost predicate Appears(key: string)
      requires Succeeds()
    {
      exists w :: 0 <= w < |Writes()| && key in Sources()[w] && Shows(Writes(), w)
    }

    ghost predicate Gone(w: nat)
      requires Succeeds()
    {
      w < |Writes()| && Overwritten(Writes(), w)
    }

    /** Position of the write of `activity_id`, before that of `type_uid`. */
    function ActivityAt(): nat {
      |spec.constants| + 2
    }

    /** Position of the write of mapping i, if it makes one. */
    function FieldAt(i: nat): nat
      requires Succeeds() && i < |spec.fields|
    {
      |HeadWrites(spec, fields, conv)| + WritesBefore(Outcomes(spec, fields, conv), i)
    }

    /** The activity rule does not read the field, writes nothing or only its default, or is
        overwritten. */
    ghost predicate ActivityHides(key: string)
      requires Succeeds()
    {
      key in ActivityTakes(spec.activity, fields, conv) ==> Gone(ActivityAt()) && Gone(ActivityAt() + 1)
    }

    /** So does mapping i. */
    ghost predicate MappingHides(i: nat, key: string)
      requires Succeeds() && i < |spec.fields|
    {
      var outcome := Outcomes(spec, fields, conv)[i].mapped;
      key in outcome.used && outcome.derived && outcome.value != Null ==> Gone(FieldAt(i))
    }

    /** The field is not copied to `unmapped`. */
    ghost predicate NotKept(key: string)
    {
      !(key in fields && Keeps(spec.unmapped, key) && !ReadBySome(spec, fields, conv, key))
    }
  }

  function NoSources(n: nat): (s: seq<set<string>>)
    ensures |s| == n && forall i :: 0 <= i < n ==> s[i] == {}
  {
    if n == 0 then [] else [{}] + NoSources(n - 1)
  }

  function HeadSources(spec: Spec, fields: Fields, conv: Conversions): (s: seq<set<string>>)
    ensures |s| == |HeadWrites(spec, fields, conv)|
  {
    var taken := ActivityTakes(spec.activity, fields, conv);
    NoSources(|spec.constants| + 2)
    + (if ActivityId(spec.activity, fields, conv).Some? then [taken, taken] else [])
  }

  function FieldSources(o: seq<Outcome>): (s: seq<set<string>>)
    requires NoneFails(o)
    ensures |s| == |FieldWrites(o)|
  {
    if o == [] then []
    else
      var last := o[|o| - 1].mapped;
      FieldSources(o[..|o| - 1]) + (if last.value == Null then [] else [DerivedFrom(last)])
  }

  function DerivedFrom(m: Mapped): set<string>
    requires m.Mapped?
  {
    if m.derived then KeySet(m.used) else {}
  }

  function TailSources(spec: Spec, fields: Fields, consumed: set<string>): seq<set<string>> {
    var left := Leftovers(spec.unmapped, fields, consumed);
    NoSources(3) + (if left.Some? then [left.value.Keys] else [])
  }

  function WritesBefore(o: seq<Outcome>, i: nat): nat
    requires NoneFails(o) && i <= |o|
  {
    |FieldWrites(o[..i])|
  }

  lemma {:induction false} FieldPlace(o: seq<Outcome>, i: nat)
    requires NoneFails(o) && i < |o| && o[i].mapped.value != Null
    ensures WritesBefore(o, i) < |FieldWrites(o)|
    ensures FieldWrites(o)[WritesBefore(o, i)] == Write(o[i].path, o[i].mapped.value)
    ensures FieldSources(o)[WritesBefore(o, i)] == DerivedFrom(o[i].mapped)
    decreases |o|
  {
    var init := o[..|o| - 1];
    if i < |init| {
      FieldPlace(init, i);
      assert init[..i] == o[..i];
    }
  }

  lemma {:induction false} FieldOrigin(o: seq<Outcome>, k: nat) returns (i: nat)
    requires NoneFails(o) && k < |FieldWrites(o)|
    ensures i < |o| && o[i].mapped.value != Null && k == WritesBefore(o, i)
    decreases |o|
  {
    var init := o[..|o| - 1];
    if k < |FieldWrites(init)| {
      i := FieldOrigin(init, k);
      assert init[..i] == o[..i];
    } else {
      i := |o| - 1;
    }
  }

  /** The write a field went into, when a rule reads and writes it or it is left over. */
  lemma PlaceOfMapping(c: Call, i: nat)
    requires c.Succeeds() && i < |c.spec.fields| && Outcomes(c.spec, c.fields, c.conv)[i].mapped.value != Null
    ensures c.FieldAt(i) < |c.Writes()|
    ensures c.Sources()[c.FieldAt(i)] == DerivedFrom(Outcomes(c.spec, c.fields, c.conv)[i].mapped)
  {
    hide Outcomes, FieldWrites, FieldSources, DerivedFrom, TailWrites, TailSources, HeadWrites, HeadSources;
    FieldPlace(Outcomes(c.spec, c.fields, c.conv), i);
  }

  lemma PlaceOfActivity(c: Call)
    requires c.Succeeds() && ActivityId(c.spec.activity, c.fields, c.conv).Some?
    ensures c.ActivityAt() + 1 < |c.Writes()|
    ensures c.Sources()[c.ActivityAt()] == c.Sources()[c.ActivityAt() + 1] == ActivityTakes(c.spec.activity, c.fields, c.conv)
  {
    hide Outcomes, FieldWrites, FieldSources, TailWrites, TailSources;
  }

  lemma PlaceOfLeftover(c: Call, key: string)
    requires c.Succeeds() && !c.NotKept(key)
    ensures var w := |c.Writes()| - 1; w >= 0 && key in c.Sources()[w] && !Overwritten(c.Writes(), w)
  {
    hide Outcomes, FieldWrites, FieldSources, KeySet, HeadWrites, HeadSources;
    ConsumedIsRead(c.spec, c.fields, c.conv, key);
  }

  /** And no write has the field among its sources otherwise. */
  lemma SourceOf(c: Call, w: nat, key: string)
    requires c.Succeeds() && w < |c.Writes()| && key in c.Sources()[w]
    ensures || (key in ActivityTakes(c.spec.activity, c.fields, c.conv) && (w == c.ActivityAt() || w == c.ActivityAt() + 1))
            || (exists i :: IsMappingOf(c, i, w, key))
            || !c.NotKept(key)
  {
    hide FieldWrites, FieldSources, UsedKeys, ActivityId;
    var o, head := Outcomes(c.spec, c.fields, c.conv), HeadWrites(c.spec, c.fields, c.conv);
    if |head| <= w < |head| + |FieldWrites(o)| {
      var i := FieldOrigin(o, w - |head|);
      FieldPlace(o, i);
      assert IsMappingOf(c, i, w, key);
    } else if w >= |head| {
      ConsumedIsRead(c.spec, c.fields, c.conv, key);
    }
  }

  ghost predicate IsMappingOf(c: Call, i: nat, w: nat, key: string)
    requires c.Succeeds()
  {
    && i < |c.spec.fields| && w == c.FieldAt(i)
    && var mapped := Outcomes(c.spec, c.fields, c.conv)[i].mapped;
    key in mapped.used && mapped.derived && mapped.value != Null
  }

  /** Losslessness, exactly: a field appears nowhere in the record if and only if it is not copied to
      `unmapped` and every rule that reads it, the activity included, writes nothing, or only its
      default, or is overwritten. */
  lemma LostExactly(c: Call, key: string)
    requires c.Succeeds()
    ensures !c.Appears(key) <==>
      c.ActivityHides(key) && c.NotKept(key) && forall i :: 0 <= i < |c.spec.fields| ==> c.MappingHides(i, key)
  {
    hide Shows, Overwritten, Call.Writes, Call.Sources, Call.NotKept, Outcomes, ActivityTakes;
    forall w | 0 <= w < |c.Writes()|
      ensures Shows(c.Writes(), w) <==> !Overwritten(c.Writes(), w)
    {
      ShowsExactly(c.Writes(), w);
    }
    if !c.Appears(key) {
      HiddenRules(c, key);
    } else {
      var w :| 0 <= w < |c.Writes()| && key in c.Sources()[w] && Shows(c.Writes(), w);
      SourceOf(c, w, key);
      if i :| IsMappingOf(c, i, w, key) {
        assert !c.MappingHides(i, key);
      }
    }
  }

  lemma NoneTaken(c: Call)
    requires ActivityId(c.spec.activity, c.fields, c.conv).None?
    ensures ActivityTakes(c.spec.activity, c.fields, c.conv) == {}
  {}

  lemma HiddenRules(c: Call, key: string)
    requires c.Succeeds() && !c.Appears(key)
    ensures c.ActivityHides(key) && c.NotKept(key) && forall i :: 0 <= i < |c.spec.fields| ==> c.MappingHides(i, key)
  {
    hide Shows, Overwritten, Call.Writes, Call.Sources, Call.NotKept, Outcomes, ActivityTakes;
    forall w | 0 <= w < |c.Writes()| && key in c.Sources()[w]
      ensures Overwritten(c.Writes(), w)
    {
      ShowsExactly(c.Writes(), w);
    }
    if ActivityId(c.spec.activity, c.fields, c.conv).Some? {
      PlaceOfActivity(c);
    } else {
      NoneTaken(c);
    }
    if !c.NotKept(key) {
      PlaceOfLeftover(c, key);
    }
    forall i | 0 <= i < |c.spec.fields|
      ensures c.MappingHides(i, key)
    {
      if Outcomes(c.spec, c.fields, c.conv)[i].mapped.value != Null {
        PlaceOfMapping(c, i);
      }
    }
  }

  /** The documented promise fails: an activity rule whose table lacks the value consumes its field,
      default or not, and under `keep_all` the field is nowhere in the record. */
  lemma UnmatchedActivityLoses(c: Call)
    requires c.Succeeds() && c.spec.activity.From?
    requires Present(FieldOf(c.fields, c.spec.activity.source))
    requires c.conv.str(FieldOf(c.fields, c.spec.activity.source)) !in c.spec.activity.table
    requires forall i :: 0 <= i < |c.spec.fields| ==> c.spec.activity.source !in c.spec.fields[i].1.sources
    ensures !c.Appears(c.spec.activity.source)
  {
    var key := c.spec.activity.source;
    LostExactly(c, key);
    assert ReadBySome(c.spec, c.fields, c.conv, key);
    forall i | 0 <= i < |c.spec.fields|
      ensures c.MappingHides(i, key)
    {
      assert Outcomes(c.spec, c.fields, c.conv)[i].mapped == MapOne(c.spec.fields[i].1, c.fields, c.conv);
    }
  }

  /** So does any field all of whose readers are tables that lack its value. */
  lemma UnmatchedTablesLose(c: Call, key: string)
    requires c.Succeeds() && ReadBySome(c.spec, c.fields, c.conv, key)
    requires key !in ActivityTakes(c.spec.activity, c.fields, c.conv)
    requires forall i :: 0 <= i < |c.spec.fields| && key in ResolveSource(c.spec.fields[i].1, c.fields, c.conv).1 ==>
      LacksValue(c.spec.fields[i].1, c.fields, c.conv)
    ensures !c.Appears(key)
  {
    hide Call.Appears;
    LostExactly(c, key);
    forall i | 0 <= i < |c.spec.fields|
      ensures c.MappingHides(i, key)
    {
      assert Outcomes(c.spec, c.fields, c.conv)[i].mapped == MapOne(c.spec.fields[i].1, c.fields, c.conv);
    }
  }

  predicate LacksValue(m: FieldMapping, fields: Fields, conv: Conversions) {
    m.table.Some? && conv.str(ResolveSource(m, fields, conv).0) !in m.table.value
  }

  /** Such an input: the activity is read from `action`, which holds a value the table lacks. */
  lemma ActionIsLost(conv: Conversions) returns (c: Call)
    ensures c.spec.unmapped == KeepAll && c.fields == map["action" := Text("deny")]
    ensures c.Succeeds() && !c.Appears("action")
  {
    c := Call(Spec(4001, 4, From("action", map[], None), [], [], KeepAll), map["action" := Text("deny")], conv, "u", "h", "v");
    UnmatchedActivityLoses(c);
  }

  // ----- when two values of a field cannot be told apart -----

  /** The two calls differ in the value of one field, which the rules treat alike: they use it, and get
      the same outcomes. */
  ghost predicate TreatedAlike(c: Call, d: Call, key: string) {
    && key in c.fields && key in d.fields && d == c.(fields := c.fields[key := d.fields[key]])
    && ReadBySome(c.spec, c.fields, c.conv, key) && ReadBySome(d.spec, d.fields, d.conv, key)
    && ActivityId(c.spec.activity, c.fields, c.conv) == ActivityId(d.spec.activity, d.fields, d.conv)
    && ActivityUses(c.spec.activity, c.fields) == ActivityUses(d.spec.activity, d.fields)
    && Outcomes(c.spec, c.fields, c.conv) == Outcomes(d.spec, d.fields, d.conv)
  }

  /** What a field leaves behind is what its outcomes tell: values with the same outcomes give one
      record, whether by a default, a table or a coercion. */
  lemma SameOutcomesOneRecord(c: Call, d: Call, key: string)
    requires c.Succeeds() && TreatedAlike(c, d, key)
    ensures d.Succeeds() && Apply(c.Writes()) == Apply(d.Writes())
  {
    hide Apply, FieldWrites, UsedKeys, ActivityId, ActivityUses;
    var consumed := Consumed(c.spec, c.fields, c.conv);
    ConsumedIsRead(c.spec, c.fields, c.conv, key);
    assert Consumed(d.spec, d.fields, d.conv) == consumed && key in consumed;
    LeftoversIgnore(c.spec.unmapped, c.fields, d.fields[key], key, consumed);
  }

  lemma LeftoversIgnore(mode: Unmapped, fields: Fields, value: Value, key: string, consumed: set<string>)
    requires key in fields && key in consumed
    ensures Leftovers(mode, fields[key := value], consumed) == Leftovers(mode, fields, consumed)
  {
    match mode {
      case DropAll =>
      case KeepAll =>
        assert (map k | k in fields[key := value] && k !in consumed :: fields[key := value][k])
            == (map k | k in fields && k !in consumed :: fields[k]);
      case KeepOnly(names) =>
        assert (map k | k in fields[key := value] && k in names && k !in consumed :: fields[key := value][k])
            == (map k | k in fields && k in names && k !in consumed :: fields[k]);
    }
  }

  /** Such inputs: any two values the table lacks give one record, and neither appears in it. */
  lemma DefaultHidesAction(conv: Conversions, one: Value, two: Value) returns (c: Call, d: Call)
    requires Present(one) && conv.str(one) != "deny" && Present(two) && conv.str(two) != "deny"
    ensures c.spec == d.spec == Spec(4001, 4, From("action", map["deny" := 2], Some(99)), [], [], KeepAll)
    ensures c.fields == map["action" := one] && d.fields == map["action" := two]
    ensures c.Succeeds() && d.Succeeds() && Apply(c.Writes()) == Apply(d.Writes())
    ensures !c.Appears("action") && !d.Appears("action")
  {
    var spec := Spec(4001, 4, From("action", map["deny" := 2], Some(99)), [], [], KeepAll);
    c := Call(spec, map["action" := one], conv, "u", "h", "v");
    d := Call(spec, map["action" := two], conv, "u", "h", "v");
    assert c.fields["action" := two] == d.fields;
    SameOutcomesOneRecord(c, d, "action");
    UnmatchedActivityLoses(c);
    UnmatchedActivityLoses(d);
  }
}
