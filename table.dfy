/** The product table as a value: a sequence of rows in storage order, and the
    handful of queries and writes the service issues against it (equality
    filters, `in`, skip/take, count and update-by-id). */
module ProductTable {
  import opened Products

  function Min(a: int, b: int): int
  {
    if a <= b then a else b
  }

  /** Ids are the table's primary key. */
  predicate UniqueIds(rows: seq<Row>)
  {
    forall i, j :: 0 <= i < j < |rows| ==> rows[i].id != rows[j].id
  }

  predicate Distinct(s: seq<int>)
  {
    forall i, j :: 0 <= i < j < |s| ==> s[i] != s[j]
  }

  function Elems(s: seq<int>): set<int>
  {
    set x | x in s
  }

  /** The ids present in the table, whatever their availability. */
  function IdSet(rows: seq<Row>): (r: set<int>)
    ensures forall id :: id in r <==> exists i :: 0 <= i < |rows| && rows[i].id == id
  {
    if rows == [] then {}
    else
      var rest := IdSet(rows[1..]);
      assert forall i :: 1 <= i < |rows| ==> rows[i] == rows[1..][i - 1];
      {rows[0].id} + rest
  }

  /** `findMany({ where: { available: true } })` without skip/take: the
      available rows, in storage order. */
  function WhereAvailable(rows: seq<Row>): (r: seq<Row>)
    ensures |r| <= |rows|
    ensures forall x :: x in r <==> x in rows && x.available
  {
    if rows == [] then []
    else if rows[0].available then [rows[0]] + WhereAvailable(rows[1..])
    else WhereAvailable(rows[1..])
  }

  /** The number of available rows in the table. */
  function CountAvailable(rows: seq<Row>): nat
  {
    if rows == [] then 0
    else (if rows[|rows| - 1].available then 1 else 0) + CountAvailable(rows[..|rows| - 1])
  }

  /** Filtering a table that grows by one row at the end grows the filtered
      result by that row alone, and only if it is available: the filter keeps
      storage order and never repeats a row. */
  lemma {:induction false} WhereAvailableAppend(rows: seq<Row>, x: Row)
    ensures WhereAvailable(rows + [x]) == WhereAvailable(rows) + (if x.available then [x] else [])
  {
    if rows == [] {
      assert [] + [x] == [x];
    } else {
      assert (rows + [x])[0] == rows[0];
      assert (rows + [x])[1..] == rows[1..] + [x];
      WhereAvailableAppend(rows[1..], x);
    }
  }

  /** The filter returns exactly as many rows as the table has available ones. */
  lemma {:induction false} WhereAvailableCount(rows: seq<Row>)
    ensures |WhereAvailable(rows)| == CountAvailable(rows)
  {
    if rows != [] {
      var init, last := rows[..|rows| - 1], rows[|rows| - 1];
      assert rows == init + [last];
      WhereAvailableAppend(init, last);
      WhereAvailableCount(init);
    }
  }

  /** `skip` and `take` applied to a query result. */
  function SkipTake(s: seq<Row>, skip: nat, take: nat): (r: seq<Row>)
    ensures |r| == if skip >= |s| then 0 else Min(take, |s| - skip)
    ensures forall k :: 0 <= k < |r| ==> r[k] == s[skip + k]
  {
    if skip >= |s| then [] else s[skip..skip + Min(take, |s| - skip)]
  }

  /** `findFirst({ where: { id, available: true } })`: the first row in
      storage order with that id that has not been soft-deleted. */
  function FindFirst(rows: seq<Row>, id: int): (r: Option<Row>)
    ensures r.Some? <==> exists i :: 0 <= i < |rows| && rows[i].id == id && rows[i].available
    ensures r.Some? ==> r.value in rows && r.value.id == id && r.value.available
  {
    if rows == [] then None
    else if rows[0].id == id && rows[0].available then Some(rows[0])
    else
      assert forall i :: 1 <= i < |rows| ==> rows[i] == rows[1..][i - 1];
      FindFirst(rows[1..], id)
  }

  /** `findMany({ where: { id: { in: ids } } })`: every row whose id is
      listed, available or not, in storage order. */
  function FindManyIn(rows: seq<Row>, ids: seq<int>): (r: seq<Row>)
    ensures |r| <= |rows|
    ensures forall x :: x in r <==> x in rows && x.id in ids
  {
    if rows == [] then []
    else if rows[0].id in ids then [rows[0]] + FindManyIn(rows[1..], ids)
    else FindManyIn(rows[1..], ids)
  }

  /** `update({ where: { id }, data })` for a partial column map `data`:
      the rows with that id get `data` merged over their columns; their id
      and availability, and every other row, stay as they were. */
  function MergeFields(rows: seq<Row>, id: int, data: Columns): (r: seq<Row>)
    ensures |r| == |rows|
    ensures forall i :: 0 <= i < |rows| ==>
              r[i].id == rows[i].id && r[i].available == rows[i].available
    ensures forall i :: 0 <= i < |rows| && rows[i].id != id ==> r[i] == rows[i]
    ensures forall i :: 0 <= i < |rows| && rows[i].id == id ==>
              r[i].fields == rows[i].fields + data
  {
    seq(|rows|, i requires 0 <= i < |rows| =>
      if rows[i].id == id then rows[i].(fields := rows[i].fields + data) else rows[i])
  }

  /** `update({ where: { id }, data: { available: false } })`: the soft
      delete. No row disappears; afterwards no row with that id is available,
      so `findFirst` for it finds nothing. */
  function SetUnavailable(rows: seq<Row>, id: int): (r: seq<Row>)
    ensures |r| == |rows|
    ensures forall i :: 0 <= i < |rows| ==>
              r[i].id == rows[i].id && r[i].fields == rows[i].fields
    ensures forall i :: 0 <= i < |rows| ==>
              r[i].available == (rows[i].available && rows[i].id != id)
    ensures FindFirst(r, id).None?
  {
    seq(|rows|, i requires 0 <= i < |rows| =>
      if rows[i].id == id then rows[i].(available := false) else rows[i])
  }

  /** An update by id leaves the set of ids, and hence their uniqueness, as
      it was. */
  lemma MergeFieldsKeepsIds(rows: seq<Row>, id: int, data: Columns)
    ensures IdSet(MergeFields(rows, id, data)) == IdSet(rows)
    ensures UniqueIds(rows) ==> UniqueIds(MergeFields(rows, id, data))
  {
  }

  /** The merged row is present in the table after the update. */
  lemma MergedRowPresent(rows: seq<Row>, id: int, data: Columns, p: Row)
    requires p in rows && p.id == id
    ensures p.(fields := p.fields + data) in MergeFields(rows, id, data)
  {
  }

  /** The soft-deleted row is present in the table after the soft delete. */
  lemma UnavailableRowPresent(rows: seq<Row>, id: int, p: Row)
    requires p in rows && p.id == id
    ensures p.(available := false) in SetUnavailable(rows, id)
  {
  }
}
