/** Dictionaries by reference, as ulpf/normalize/mapper.py handles them: a dictionary given as a constant
    is stored in every record as it is, and nested writes go into it. */
module SharedRecord {
  import opened Core

  /** A value of a record: a scalar, or a reference to a dictionary. */
  datatype Item = Plain(text: string) | Ref(dict: PyDict)

  class PyDict {
    var items: map<string, Item>

    constructor ()
      ensures items == map[]
    {
      items := map[];
    }
  }

  /** The dictionaries a write below `key` goes into, besides the record itself. */
  function Below(record: PyDict, key: string): set<PyDict>
    reads record
  {
    if key in record.items && record.items[key].Ref? then {record.items[key].dict} else {}
  }

  /** `_set_nested` for a target of two keys: an existing dictionary is written to in place, anything
      else is replaced by a new one. */
  method SetBelow(record: PyDict, outer: string, inner: string, text: string) returns (child: PyDict)
    requires record !in Below(record, outer)
    modifies record, Below(record, outer)
    ensures record.items == old(record.items)[outer := Ref(child)] && child != record
    ensures if old(Below(record, outer)) == {} then fresh(child) else {child} == old(Below(record, outer))
    ensures child.items == (if old(Below(record, outer)) == {} then map[] else old(child.items))[inner := Plain(text)]
  {
    if outer in record.items && record.items[outer].Ref? {
      child := record.items[outer].dict;
    } else {
      child := new PyDict();
    }
    record.items := record.items[outer := Ref(child)];
    child.items := child.items[inner := Plain(text)];
  }

  /** What a record holds at `metadata.uid`. */
  function Uid(record: PyDict): Option<Item>
    reads record, Below(record, "metadata")
  {
    if "metadata" in record.items && record.items["metadata"].Ref? && "uid" in record.items["metadata"].dict.items
    then Some(record.items["metadata"].dict.items["uid"]) else None
  }

  /** One event: the constants enter the record by reference, then the uid is stamped. */
  method MapEvent(constants: map<string, Item>, uid: string) returns (record: PyDict)
    modifies if "metadata" in constants && constants["metadata"].Ref? then {constants["metadata"].dict} else {}
    ensures fresh(record) && Uid(record) == Some(Plain(uid))
    ensures "metadata" in record.items && record.items["metadata"].Ref?
    ensures if "metadata" in constants && constants["metadata"].Ref?
      then record.items["metadata"] == constants["metadata"] else fresh(record.items["metadata"].dict)
    ensures record.items["metadata"].dict != record
  {
    record := new PyDict();
    record.items := constants;
    var metadata := SetBelow(record, "metadata", "uid", uid);
  }

  /** When the stamps of an earlier record survive a later event of the same definition: exactly when
      no dictionary is given as the constant at `metadata`, or both events have one uid. */
  method TwoEvents(constants: map<string, Item>, uid: string, later: string) returns (first: PyDict, second: PyDict)
    modifies if "metadata" in constants && constants["metadata"].Ref? then {constants["metadata"].dict} else {}
    ensures Uid(second) == Some(Plain(later))
    ensures Uid(first) == Some(Plain(uid)) <==> !("metadata" in constants && constants["metadata"].Ref?) || uid == later
  {
    first := MapEvent(constants, uid);
    second := MapEvent(constants, later);
  }
}
