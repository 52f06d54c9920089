/** The per-event index of ulpf/integrity/index.py: a table keyed by event uid. */
module Index {
  import opened Core

  datatype Location = Location(ledgerSeq: int, leafIndex: int)

  type Rows = map<string, Location>

  /** The table after the first n rows of a batch were inserted or replaced. */
  function AddRows(rows: Rows, ledgerSeq: int, uids: seq<string>, n: nat): Rows
    requires n <= |uids|
  {
    if n == 0 then rows
    else AddRows(rows, ledgerSeq, uids, n - 1)[uids[n - 1] := Location(ledgerSeq, n - 1)]
  }

  /** `list` holds every uid of a batch once, ordered by leaf index; rows with equal leaf
      indices may come in any order. */
  ghost predicate IsListing(rows: Rows, ledgerSeq: int, list: seq<string>) {
    && (forall i :: 0 <= i < |list| ==> list[i] in rows && rows[list[i]].ledgerSeq == ledgerSeq)
    && (forall i, j :: 0 <= i < j < |list| ==> list[i] != list[j])
    && (forall i, j :: 0 <= i < j < |list| ==> rows[list[i]].leafIndex <= rows[list[j]].leafIndex)
    && (forall uid :: uid in rows && rows[uid].ledgerSeq == ledgerSeq ==> uid in list)
  }

  class IntegrityIndex {
    var rows: Rows

    constructor ()
      ensures rows == map[]
    {
      rows := map[];
    }

    method AddBatch(ledgerSeq: int, uids: seq<string>)
      modifies this
      ensures rows == AddRows(old(rows), ledgerSeq, uids, |uids|)
    {
      for i := 0 to |uids|
        invariant rows == AddRows(old(rows), ledgerSeq, uids, i)
      {
        rows := rows[uids[i] := Location(ledgerSeq, i)];
      }
    }

    method Lookup(uid: string) returns (location: Option<Location>)
      ensures location == if uid in rows then Some(rows[uid]) else None
    {
      location := if uid in rows then Some(rows[uid]) else None;
    }

    method EventUidsForBatch(ledgerSeq: int) returns (list: seq<string>)
      ensures IsListing(rows, ledgerSeq, list)
    {
      var remaining := set uid | uid in rows && rows[uid].ledgerSeq == ledgerSeq;
      list := [];
      while remaining != {}
        invariant forall uid :: uid in remaining ==> uid in rows && rows[uid].ledgerSeq == ledgerSeq && uid !in list
        invariant forall uid :: uid in rows && rows[uid].ledgerSeq == ledgerSeq ==> uid in remaining || uid in list
        invariant forall i :: 0 <= i < |list| ==> list[i] in rows && rows[list[i]].ledgerSeq == ledgerSeq
        invariant forall i, j :: 0 <= i < j < |list| ==> list[i] != list[j]
        invariant forall i, j :: 0 <= i < j < |list| ==> rows[list[i]].leafIndex <= rows[list[j]].leafIndex
        invariant forall i, uid :: 0 <= i < |list| && uid in remaining ==> rows[list[i]].leafIndex <= rows[uid].leafIndex
        decreases |remaining|
      {
        LeastExists(rows, remaining);
        var next :| next in remaining && forall uid :: uid in remaining ==> rows[next].leafIndex <= rows[uid].leafIndex;
        remaining := remaining - {next};
        list := list + [next];
      }
    }
  }

  lemma {:induction false} LeastExists(rows: Rows, uids: set<string>)
    requires uids != {} && forall uid :: uid in uids ==> uid in rows
    ensures exists least :: least in uids && forall uid :: uid in uids ==> rows[least].leafIndex <= rows[uid].leafIndex
    decreases |uids|
  {
    var first :| first in uids;
    if uids != {first} {
      var rest := uids - {first};
      assert rest != {};
      LeastExists(rows, rest);
      var least :| least in rest && forall uid :: uid in rest ==> rows[least].leafIndex <= rows[uid].leafIndex;
      var best := if rows[first].leafIndex <= rows[least].leafIndex then first else least;
      assert best in uids && forall uid :: uid in uids ==> rows[best].leafIndex <= rows[uid].leafIndex;
    } else {
      assert first in uids && forall uid :: uid in uids ==> rows[first].leafIndex <= rows[uid].leafIndex;
    }
  }

  predicate Distinct<T(==)>(items: seq<T>) {
    forall i, j :: 0 <= i < j < |items| ==> items[i] != items[j]
  }

  /** Inserting a batch of distinct uids places the i-th at leaf index i and touches no other
      row. */
  lemma {:induction false} AddRowsPlaces(rows: Rows, ledgerSeq: int, uids: seq<string>, n: nat)
    requires n <= |uids| && Distinct(uids)
    ensures forall i :: 0 <= i < n ==>
      uids[i] in AddRows(rows, ledgerSeq, uids, n)
      && AddRows(rows, ledgerSeq, uids, n)[uids[i]] == Location(ledgerSeq, i)
    ensures forall uid :: uid !in uids[..n] ==>
      (uid in AddRows(rows, ledgerSeq, uids, n) <==> uid in rows)
      && (uid in rows ==> AddRows(rows, ledgerSeq, uids, n)[uid] == rows[uid])
  {
    if n > 0 {
      AddRowsPlaces(rows, ledgerSeq, uids, n - 1);
      assert uids[..n] == uids[..n - 1] + [uids[n - 1]];
    }
  }

  /** What a lookup answers after a batch was added, whatever uids repeat: the last position of the
      uid in the batch, or what it answered before if the batch does not hold it. */
  lemma {:induction false} AddRowsLast(rows: Rows, ledgerSeq: int, uids: seq<string>, n: nat, uid: string)
    requires n <= |uids|
    ensures var after := AddRows(rows, ledgerSeq, uids, n);
      if uid in uids[..n]
      then uid in after && after[uid].ledgerSeq == ledgerSeq && IsLast(uids[..n], after[uid].leafIndex, uid)
      else (uid in after <==> uid in rows) && (uid in rows ==> after[uid] == rows[uid])
  {
    if n > 0 {
      AddRowsLast(rows, ledgerSeq, uids, n - 1, uid);
      assert uids[..n] == uids[..n - 1] + [uids[n - 1]];
    }
  }

  predicate IsLast(uids: seq<string>, i: int, uid: string) {
    0 <= i < |uids| && uids[i] == uid && forall j :: i < j < |uids| ==> uids[j] != uid
  }

  /** The rows of one batch are exactly uids[i] at leaf index i. */
  ghost predicate BatchAt(rows: Rows, ledgerSeq: int, uids: seq<string>) {
    && (forall i :: 0 <= i < |uids| ==> uids[i] in rows && rows[uids[i]] == Location(ledgerSeq, i))
    && (forall uid :: uid in rows && rows[uid].ledgerSeq == ledgerSeq ==> uid in uids)
  }

  lemma {:induction false} ListingPosition(rows: Rows, ledgerSeq: int, uids: seq<string>, list: seq<string>, i: nat)
    requires BatchAt(rows, ledgerSeq, uids) && IsListing(rows, ledgerSeq, list)
    requires i < |list|
    ensures i < |uids| && list[i] == uids[i]
  {
    assert list[i] in uids;
    var p :| 0 <= p < |uids| && uids[p] == list[i];
    if i > 0 {
      ListingPosition(rows, ledgerSeq, uids, list, i - 1);
      assert list[i - 1] == uids[i - 1] && rows[list[i - 1]].leafIndex == i - 1;
    }
    if p < i {
      ListingPosition(rows, ledgerSeq, uids, list, p);
      assert false;
    }
    assert uids[i] in list;
    var q :| 0 <= q < |list| && list[q] == uids[i];
    if q < i {
      assert false;
    }
    assert rows[list[i]].leafIndex == p && rows[list[q]].leafIndex == i;
  }

  lemma ListingCovers(rows: Rows, ledgerSeq: int, uids: seq<string>, list: seq<string>, i: nat)
    requires BatchAt(rows, ledgerSeq, uids) && IsListing(rows, ledgerSeq, list)
    requires i < |uids|
    ensures i < |list|
  {
    assert uids[i] in list;
    var q :| 0 <= q < |list| && list[q] == uids[i];
    ListingPosition(rows, ledgerSeq, uids, list, q);
    assert rows[uids[q]] == Location(ledgerSeq, q) && rows[uids[i]] == Location(ledgerSeq, i);
  }

  /** Reading a batch back returns its uids in sealing order. */
  lemma ListingIsBatch(rows: Rows, ledgerSeq: int, uids: seq<string>, list: seq<string>)
    requires BatchAt(rows, ledgerSeq, uids) && IsListing(rows, ledgerSeq, list)
    ensures list == uids
  {
    forall i | 0 <= i < |list|
      ensures i < |uids| && list[i] == uids[i]
    {
      ListingPosition(rows, ledgerSeq, uids, list, i);
    }
    if list != [] {
      ListingPosition(rows, ledgerSeq, uids, list, |list| - 1);
    }
    if uids != [] {
      ListingCovers(rows, ledgerSeq, uids, list, |uids| - 1);
    }
  }
}
