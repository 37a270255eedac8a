/**
 * The corpus store: the ordered list of records that every uploaded spreadsheet
 * row is merged into. A row whose identifier is already present overwrites the
 * values of that record in place; any other row is appended at the end.
 */
module Corpus {
  import opened Wrappers

  /** One row of the corpus: an identifier and the integers read from its cells. */
  datatype Record = Record(id: string, values: seq<int>)

  /** The identifiers present in a corpus. */
  function Ids(rs: seq<Record>): set<string> {
    set r | r in rs :: r.id
  }

  /** No two records share an identifier. */
  predicate UniqueIds(rs: seq<Record>) {
    forall i, j :: 0 <= i < j < |rs| ==> rs[i].id != rs[j].id
  }

  /** The values of the first record with identifier `id`, if there is one. */
  function Lookup(rs: seq<Record>, id: string): Option<seq<int>> {
    if rs == [] then None
    else if rs[0].id == id then Some(rs[0].values)
    else Lookup(rs[1..], id)
  }

  /** The corpus after merging one row: the first record carrying the row's
      identifier takes the row's values, and without such a record the row
      is appended. */
  function Upserted(rs: seq<Record>, row: Record): seq<Record> {
    if rs == [] then [row]
    else if rs[0].id == row.id then [rs[0].(values := row.values)] + rs[1..]
    else [rs[0]] + Upserted(rs[1..], row)
  }

  /** The corpus after merging a batch of rows one after the other. */
  function UpsertedAll(rs: seq<Record>, rows: seq<Record>): seq<Record> {
    if rows == [] then rs
    else Upserted(UpsertedAll(rs, rows[..|rows| - 1]), rows[|rows| - 1])
  }

  /** The values of the last row of a batch that carries identifier `id`. */
  function LastValues(rows: seq<Record>, id: string): Option<seq<int>> {
    if rows == [] then None
    else if rows[|rows| - 1].id == id then Some(rows[|rows| - 1].values)
    else LastValues(rows[..|rows| - 1], id)
  }

  /** The search `next(item for item in raw_data if item["id"] == id)`: the
      position of the first record with identifier `id`, or None. */
  method FindById(rs: seq<Record>, id: string) returns (found: Option<nat>)
    ensures found.None? ==> forall i :: 0 <= i < |rs| ==> rs[i].id != id
    ensures found.Some? ==> found.value < |rs| && rs[found.value].id == id
    ensures found.Some? ==> forall i :: 0 <= i < found.value ==> rs[i].id != id
  {
    var i := 0;
    while i < |rs|
      invariant 0 <= i <= |rs|
      invariant forall k :: 0 <= k < i ==> rs[k].id != id
    {
      if rs[i].id == id {
        return Some(i);
      }
      i := i + 1;
    }
    return None;
  }

  /** When a record with the row's identifier exists, merging changes the
      values of the first such record and nothing else. */
  lemma {:induction false} UpsertedReplacesFirst(rs: seq<Record>, row: Record, k: nat)
    requires k < |rs| && rs[k].id == row.id
    requires forall i :: 0 <= i < k ==> rs[i].id != row.id
    ensures Upserted(rs, row) == rs[k := rs[k].(values := row.values)]
  {
    if k > 0 {
      UpsertedReplacesFirst(rs[1..], row, k - 1);
      assert rs[k := rs[k].(values := row.values)] == [rs[0]] + rs[1..][k - 1 := rs[k].(values := row.values)];
    }
  }

  /** When no record has the row's identifier, merging appends the row and
      leaves every existing record where it was. */
  lemma {:induction false} UpsertedAppends(rs: seq<Record>, row: Record)
    requires forall i :: 0 <= i < |rs| ==> rs[i].id != row.id
    ensures Upserted(rs, row) == rs + [row]
  {
    if rs != [] {
      UpsertedAppends(rs[1..], row);
      assert rs + [row] == [rs[0]] + (rs[1..] + [row]);
    }
  }

  /** After merging a row, its identifier reads back the row's values and every
      other identifier reads back what it did before. */
  lemma {:induction false} UpsertedLookup(rs: seq<Record>, row: Record, id: string)
    ensures Lookup(Upserted(rs, row), id) == if id == row.id then Some(row.values) else Lookup(rs, id)
  {
    if rs != [] && rs[0].id != row.id {
      UpsertedLookup(rs[1..], row, id);
    }
  }

  /** Merging adds the row's identifier and no other. */
  lemma {:induction false} UpsertedIds(rs: seq<Record>, row: Record)
    ensures Ids(Upserted(rs, row)) == Ids(rs) + {row.id}
  {
    if rs != [] {
      UpsertedIds(rs[1..], row);
      assert rs == [rs[0]] + rs[1..];
      assert Ids(rs) == {rs[0].id} + Ids(rs[1..]);
      var r := Upserted(rs, row);
      if rs[0].id == row.id {
        assert Ids(r) == {rs[0].id} + Ids(rs[1..]);
      } else {
        assert r == [rs[0]] + Upserted(rs[1..], row);
        assert Ids(r) == {rs[0].id} + Ids(Upserted(rs[1..], row));
      }
    }
  }

  /** A corpus whose identifiers were unique keeps them unique. */
  lemma {:induction false} UpsertedKeepsUniqueIds(rs: seq<Record>, row: Record)
    requires UniqueIds(rs)
    ensures UniqueIds(Upserted(rs, row))
  {
    if rs != [] {
      var r := Upserted(rs, row);
      if rs[0].id == row.id {
        assert forall i :: 0 < i < |r| ==> r[i] == rs[i];
      } else {
        var tail := Upserted(rs[1..], row);
        UpsertedKeepsUniqueIds(rs[1..], row);
        UpsertedIds(rs[1..], row);
        assert rs[0].id !in Ids(rs[1..]);
        forall j | 0 < j < |r|
          ensures r[0].id != r[j].id
        {
          assert r[j] == tail[j - 1];
          assert r[j].id in Ids(tail);
        }
      }
    }
  }

  /** Later rows win: after a batch, an identifier the batch carries reads back
      the values of the batch's last row with it, and any other identifier reads
      back what it did before the batch. */
  lemma {:induction false} UpsertedAllLookup(rs: seq<Record>, rows: seq<Record>, id: string)
    ensures Lookup(UpsertedAll(rs, rows), id) ==
            if LastValues(rows, id).Some? then LastValues(rows, id) else Lookup(rs, id)
    decreases |rows|
  {
    if rows != [] {
      UpsertedAllLookup(rs, rows[..|rows| - 1], id);
      UpsertedLookup(UpsertedAll(rs, rows[..|rows| - 1]), rows[|rows| - 1], id);
    }
  }

  /** A batch keeps the identifiers of a corpus unique. */
  lemma {:induction false} UpsertedAllKeepsUniqueIds(rs: seq<Record>, rows: seq<Record>)
    requires UniqueIds(rs)
    ensures UniqueIds(UpsertedAll(rs, rows))
    decreases |rows|
  {
    if rows != [] {
      UpsertedAllKeepsUniqueIds(rs, rows[..|rows| - 1]);
      UpsertedKeepsUniqueIds(UpsertedAll(rs, rows[..|rows| - 1]), rows[|rows| - 1]);
    }
  }

  /** The corpus as held in memory while a batch of spreadsheet rows is merged. */
  class Store {
    var records: seq<Record>

    /** Start from the stored corpus, or from an empty one when nothing has
        been stored yet. */
    constructor (stored: Option<seq<Record>>)
      ensures records == if stored.Some? then stored.value else []
    {
      match stored
      case Some(rs) =>
        records := rs;
      case None =>
        records := [];
    }

    /** Merge one parsed row: overwrite the values of the record found by
        identifier, or append the row. */
    method Upsert(row: Record)
      modifies this
      ensures records == Upserted(old(records), row)
    {
      var found := FindById(records, row.id);
      match found
      case Some(k) =>
        UpsertedReplacesFirst(records, row, k);
        records := records[k := records[k].(values := row.values)];
      case None =>
        UpsertedAppends(records, row);
        records := records + [row];
    }

    /** Merge the rows of every uploaded sheet, in order. */
    method Ingest(rows: seq<Record>)
      modifies this
      ensures records == UpsertedAll(old(records), rows)
    {
      for i := 0 to |rows|
        invariant records == UpsertedAll(old(records), rows[..i])
      {
        assert rows[..i + 1][..i] == rows[..i];
        Upsert(rows[i]);
      }
      assert rows[..|rows|] == rows;
    }
  }
}
