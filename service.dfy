/** `ProductsService`: the product lifecycle (create, paginated listing,
    lookup, update and soft delete) and the bulk id check used by other
    services, over the product table of module ProductTable. */
module ProductsService {
  import opened Products
  import opened ProductTable

  /** `Math.ceil(total / limit)`: the number of pages of `limit` rows that
      `total` rows fill, i.e. the least `r` with `r * limit >= total`. */
  function LastPage(total: nat, limit: int): (r: nat)
    requires limit > 0
    ensures r * limit >= total
    ensures (r - 1) * limit < total
  {
    var q := (total + limit - 1) / limit;
    var m := (total + limit - 1) % limit;
    assert total + limit - 1 == q * limit + m && 0 <= m < limit;
    assert (q - 1) * limit == q * limit - limit;
    q
  }

  /** `Array.from(new Set(ids))`: the ids without repetitions, each kept at
      its first occurrence. */
  function Dedup(ids: seq<int>): (r: seq<int>)
    ensures Distinct(r)
    ensures forall x :: x in r <==> x in ids
    ensures |r| <= |ids|
  {
    if ids == [] then []
    else
      var last := ids[|ids| - 1];
      var rest := Dedup(ids[..|ids| - 1]);
      assert ids == ids[..|ids| - 1] + [last];
      if last in rest then rest else rest + [last]
  }

  /** A sequence without repetitions has as many elements as its set. */
  lemma {:induction false} DistinctCard(s: seq<int>)
    requires Distinct(s)
    ensures |Elems(s)| == |s|
  {
    if s != [] {
      var t := s[1..];
      assert Distinct(t) by {
        forall i, j | 0 <= i < j < |t| ensures t[i] != t[j] {
          assert t[i] == s[i + 1] && t[j] == s[j + 1];
        }
      }
      DistinctCard(t);
      assert s[0] !in t by {
        forall i | 0 <= i < |t| ensures t[i] != s[0] {
          assert t[i] == s[i + 1];
        }
      }
      assert Elems(s) == {s[0]} + Elems(t) by {
        assert s == [s[0]] + t;
      }
    }
  }

  /** With unique ids, a membership query returns exactly one row per listed
      id that the table holds. */
  lemma {:induction false} FindManyInCount(rows: seq<Row>, ids: seq<int>)
    requires UniqueIds(rows)
    ensures |FindManyIn(rows, ids)| == |Elems(ids) * IdSet(rows)|
  {
    if rows != [] {
      var rest, x := rows[1..], rows[0].id;
      UniqueTail(rows);
      FindManyInCount(rest, ids);
      var a, b := Elems(ids), IdSet(rest);
      assert IdSet(rows) == {x} + b;
      InsertCard(a, b, x);
    }
  }

  /** Adding to `b` an element it lacks adds one to `|a * b|` if the
      element is in `a`, and nothing otherwise. */
  lemma InsertCard(a: set<int>, b: set<int>, x: int)
    requires x !in b
    ensures |a * ({x} + b)| == if x in a then 1 + |a * b| else |a * b|
  {
    if x in a {
      assert a * ({x} + b) == {x} + a * b;
    } else {
      assert a * ({x} + b) == a * b;
    }
  }

  /** The rows after the first keep unique ids, none of them the first row's. */
  lemma UniqueTail(rows: seq<Row>)
    requires rows != [] && UniqueIds(rows)
    ensures UniqueIds(rows[1..]) && rows[0].id !in IdSet(rows[1..])
  {
  }

  /** The check `products.length < ids.length` on the de-duplicated ids fails
      exactly when some requested id has no row at all; when it passes, there
      is one matched row per distinct id. */
  lemma ValidateCount(rows: seq<Row>, ids: seq<int>)
    requires UniqueIds(rows)
    ensures var distinct := Dedup(ids);
            && (|FindManyIn(rows, distinct)| < |distinct| <==>
                  exists id :: id in ids && id !in IdSet(rows))
            && |FindManyIn(rows, distinct)| <= |distinct|
  {
    var distinct := Dedup(ids);
    var a := Elems(distinct);
    var b := a * IdSet(rows);
    DistinctCard(distinct);
    FindManyInCount(rows, distinct);
    assert b <= a;
    if exists id :: id in ids && id !in IdSet(rows) {
      var id :| id in ids && id !in IdSet(rows);
      assert id in a - b;
      assert |a| == |b| + |a - b|;
    } else {
      assert a == b;
    }
  }

  /** A freshly inserted, available row is what `findFirst` returns for its id. */
  lemma {:induction false} CreatedIsFound(rows: seq<Row>, p: Row)
    requires p.available && p.id !in IdSet(rows)
    ensures FindFirst(rows + [p], p.id) == Some(p)
  {
    if rows == [] {
      assert rows + [p] == [p];
    } else {
      assert rows[0].id != p.id;
      assert (rows + [p])[1..] == rows[1..] + [p];
      assert p.id !in IdSet(rows[1..]) by {
        forall i | 0 <= i < |rows[1..]| ensures rows[1..][i].id != p.id {
          assert rows[1..][i] == rows[i + 1];
        }
      }
      CreatedIsFound(rows[1..], p);
    }
  }

  /** With unique ids, an update leaves the row visible to `findFirst`, now
      carrying the merged columns. */
  lemma UpdatedIsFound(rows: seq<Row>, id: int, data: Columns, p: Row)
    requires UniqueIds(rows)
    requires FindFirst(rows, id) == Some(p)
    ensures FindFirst(MergeFields(rows, id, data), id) == Some(p.(fields := p.fields + data))
  {
  }

  /** Every available row lies on exactly the page its position gives, and
      that page is at most `lastPage`: the pages 1..lastPage together list
      every available row. */
  lemma RowOnPage(rows: seq<Row>, limit: int, j: nat)
    requires limit > 0 && j < |WhereAvailable(rows)|
    ensures 1 <= j / limit + 1 <= LastPage(|rows|, limit)
    ensures j % limit < |SkipTake(WhereAvailable(rows), (j / limit) * limit, limit)|
    ensures SkipTake(WhereAvailable(rows), (j / limit) * limit, limit)[j % limit]
            == WhereAvailable(rows)[j]
  {
    var avail := WhereAvailable(rows);
    PositionOnPage(avail, limit, j);
    assert j / limit + 1 <= LastPage(|rows|, limit) by {
      PageWithinLast(|rows|, limit, j);
    }
  }

  /** Position `j` of a sequence is entry `j % limit` of page `j / limit + 1`. */
  lemma PositionOnPage(s: seq<Row>, limit: int, j: nat)
    requires limit > 0 && j < |s|
    ensures 0 <= (j / limit) * limit <= j
    ensures j % limit < |SkipTake(s, (j / limit) * limit, limit)|
    ensures SkipTake(s, (j / limit) * limit, limit)[j % limit] == s[j]
  {
    var q, m := j / limit, j % limit;
    assert j == q * limit + m && 0 <= m < limit;
  }

  /** An index below `total` lies on a page no later than the last one. */
  lemma PageWithinLast(total: nat, limit: int, j: nat)
    requires limit > 0 && j < total
    ensures j / limit + 1 <= LastPage(total, limit)
  {
    var q, m := j / limit, j % limit;
    var last := LastPage(total, limit);
    assert j == q * limit + m && 0 <= m < limit;
    assert q * limit < last * limit;
    FactorBound(q, last, limit);
  }

  /** `q * limit < last * limit` with `limit > 0` gives `q < last`. */
  lemma FactorBound(q: int, last: int, limit: int)
    requires limit > 0 && q * limit < last * limit
    ensures q < last
  {
  }

  /** The table invariant: ids are unique, positive and below the next id
      to hand out, and no product's own columns shadow `id` or `available`. */
  predicate WellFormed(rows: seq<Row>, nextId: int)
  {
    && UniqueIds(rows)
    && nextId >= 1
    && (forall i :: 0 <= i < |rows| ==> 1 <= rows[i].id < nextId)
    && (forall i :: 0 <= i < |rows| ==> ProductColumns(rows[i].fields))
  }

  /** Inserting a row under the next id keeps the table well formed. */
  lemma InsertKeepsWellFormed(rows: seq<Row>, nextId: int, dto: Columns)
    requires WellFormed(rows, nextId) && ProductColumns(dto)
    ensures nextId !in IdSet(rows)
    ensures WellFormed(rows + [Row(nextId, true, dto)], nextId + 1)
  {
  }

  /** An update whose data touches neither `id` nor `available` keeps the
      table well formed: this is what stripping `id` from the payload buys. */
  lemma MergeKeepsWellFormed(rows: seq<Row>, nextId: int, id: int, data: Columns)
    requires WellFormed(rows, nextId) && ProductColumns(data)
    ensures WellFormed(MergeFields(rows, id, data), nextId)
  {
    MergeFieldsKeepsIds(rows, id, data);
  }

  /** A soft delete keeps the table well formed. */
  lemma SoftDeleteKeepsWellFormed(rows: seq<Row>, nextId: int, id: int)
    requires WellFormed(rows, nextId)
    ensures WellFormed(SetUnavailable(rows, id), nextId)
  {
  }

  class ProductsService {
    /** The product table, in storage order. */
    var rows: seq<Row>
    /** The id the next created product receives (the table's autoincrement). */
    var nextId: int

    ghost predicate Valid()
      reads this
    {
      WellFormed(rows, nextId)
    }

    /** An empty product table. */
    constructor ()
      ensures Valid() && rows == [] && nextId == 1
    {
      rows := [];
      nextId := 1;
    }

    /** `create`: inserts one available row carrying the given columns under
        a fresh id; every earlier row stays as it was. */
    method Create(dto: Columns) returns (product: Row)
      requires Valid()
      requires ProductColumns(dto)
      modifies this
      ensures Valid()
      ensures product == Row(old(nextId), true, dto)
      ensures product.id !in IdSet(old(rows))
      ensures rows == old(rows) + [product]
      ensures nextId == old(nextId) + 1
    {
      product := Row(nextId, true, dto);
      InsertKeepsWellFormed(rows, nextId, dto);
      rows := rows + [product];
      nextId := nextId + 1;
    }

    /** `findAll`: a page of the available rows, with `meta.total` counting
        every row, soft-deleted ones included. */
    method FindAll(page: int, limit: int) returns (r: Page)
      requires Valid()
      requires page >= 1 && limit > 0
      ensures r.meta.page == page
      ensures r.meta.total == |rows|
      ensures r.meta.lastPage * limit >= |rows| > (r.meta.lastPage - 1) * limit
      ensures r.data == SkipTake(WhereAvailable(rows), (page - 1) * limit, limit)
      ensures forall x :: x in r.data ==> x in rows && x.available
      ensures var offset, avail := (page - 1) * limit, WhereAvailable(rows);
              && |r.data| == (if offset >= |avail| then 0 else Min(limit, |avail| - offset))
              && forall k :: 0 <= k < |r.data| ==> r.data[k] == avail[offset + k]
      ensures var offset, n := (page - 1) * limit, CountAvailable(rows);
              |r.data| == (if offset >= n then 0 else Min(limit, n - offset))
    {
      var total := |rows|;
      var lastPage := LastPage(total, limit);
      WhereAvailableCount(rows);
      var data := SkipTake(WhereAvailable(rows), (page - 1) * limit, limit);
      r := Page(data, Meta(page, total, lastPage));
    }

    /** `findOne`: the product with this id, provided it has not been
        soft-deleted; otherwise NotFound. */
    method FindOne(id: int) returns (r: Result<Row>)
      requires Valid()
      ensures r.Ok? <==> exists i :: 0 <= i < |rows| && rows[i].id == id && rows[i].available
      ensures r.Ok? ==> r.value in rows && r.value.id == id && r.value.available
      ensures r.Ok? ==> forall x :: x in rows && x.id == id ==> x == r.value
      ensures r.Err? ==> r.error == NotFound(id)
    {
      match FindFirst(rows, id)
      case Some(p) =>
        r := Ok(p);
      case None =>
        r := Err(NotFound(id));
    }

    /** `update`: `dto` holds the target id and the columns to change. The id
        is stripped from the data that is written, the existence check of
        `findOne` runs first, and on success the remaining columns are merged
        into the target row. */
    method Update(dto: Columns) returns (r: Result<Row>)
      requires Valid()
      requires IdColumn in dto && dto[IdColumn].IntValue?
      requires AvailableColumn !in dto
      modifies this
      ensures Valid() && nextId == old(nextId)
      ensures var id := dto[IdColumn].n;
              r.Err? <==> FindFirst(old(rows), id).None?
      ensures r.Err? ==> r.error == NotFound(dto[IdColumn].n) && rows == old(rows)
      ensures r.Ok? ==>
                var id := dto[IdColumn].n;
                var target := FindFirst(old(rows), id).value;
                && rows == MergeFields(old(rows), id, dto - {IdColumn})
                && r.value == target.(fields := target.fields + (dto - {IdColumn}))
                && r.value.id == id && r.value.available
                && r.value in rows
    {
      var id := dto[IdColumn].n;
      var data := dto - {IdColumn};
      var found := FindOne(id);
      if found.Err? {
        return found;
      }
      var target := found.value;
      MergedRowPresent(rows, id, data, target);
      MergeKeepsWellFormed(rows, nextId, id, data);
      rows := MergeFields(rows, id, data);
      r := Ok(target.(fields := target.fields + data));
    }

    /** `remove`: a soft delete. After the existence check of `findOne`, the
        row's availability flag is cleared; the row stays in the table. */
    method Remove(id: int) returns (r: Result<Row>)
      requires Valid()
      modifies this
      ensures Valid() && nextId == old(nextId)
      ensures |rows| == |old(rows)|
      ensures r.Err? <==> FindFirst(old(rows), id).None?
      ensures r.Err? ==> r.error == NotFound(id) && rows == old(rows)
      ensures r.Ok? ==>
                && rows == SetUnavailable(old(rows), id)
                && r.value == FindFirst(old(rows), id).value.(available := false)
                && r.value in rows
    {
      var found := FindOne(id);
      if found.Err? {
        return found;
      }
      var target := found.value;
      UnavailableRowPresent(rows, id, target);
      SoftDeleteKeepsWellFormed(rows, nextId, id);
      rows := SetUnavailable(rows, id);
      r := Ok(target.(available := false));
    }

    /** `validateProducts`: checks that every requested id names a row,
        whether available or not, and returns the matched rows. */
    method ValidateProducts(ids: seq<int>) returns (r: Result<seq<Row>>)
      requires Valid()
      ensures r.Err? <==> exists id :: id in ids && id !in IdSet(rows)
      ensures r.Err? ==> r.error == InvalidIds
      ensures r.Ok? ==> r.value == FindManyIn(rows, Dedup(ids))
      ensures r.Ok? ==> |r.value| == |Dedup(ids)|
      ensures r.Ok? ==> forall x :: x in r.value <==> x in rows && x.id in ids
    {
      var distinct := Dedup(ids);
      var products := FindManyIn(rows, distinct);
      ValidateCount(rows, ids);
      if |products| < |distinct| {
        r := Err(InvalidIds);
      } else {
        r := Ok(products);
      }
    }

    /** A removed product stays removed: after a successful `remove`, a
        second `remove` and a `findOne` of the same id both fail. */
    method RemoveThenLookUp(id: int) returns (first: Result<Row>, second: Result<Row>, lookup: Result<Row>)
      requires Valid()
      modifies this
      ensures Valid()
      ensures first.Ok? ==> second == Err(NotFound(id)) && lookup == Err(NotFound(id))
      ensures |rows| == |old(rows)|
    {
      first := Remove(id);
      second := Remove(id);
      lookup := FindOne(id);
    }

    /** Listing, soft delete, listing again on a table holding one product:
        the row leaves the page but is still counted in `meta.total`, since
        the total comes from an unfiltered count. */
    method ListRemoveList(dto: Columns) returns (before: Page, after: Page)
      requires Valid() && rows == []
      requires ProductColumns(dto)
      modifies this
      ensures Valid()
      ensures |rows| == 1 && before.data == [rows[0].(available := true)]
      ensures before.meta == Meta(1, 1, 1)
      ensures after.data == [] && after.meta == Meta(1, 1, 1)
    {
      var product := Create(dto);
      before := FindAll(1, 10);
      var removed := Remove(product.id);
      CreatedIsFound([], product);
      after := FindAll(1, 10);
    }

    /** A created product is immediately visible to `findOne`. */
    method CreateThenLookUp(dto: Columns) returns (product: Row, lookup: Result<Row>)
      requires Valid()
      requires ProductColumns(dto)
      modifies this
      ensures Valid()
      ensures lookup == Ok(product) && product.available && product.fields == dto
    {
      product := Create(dto);
      CreatedIsFound(old(rows), product);
      lookup := FindOne(product.id);
    }
  }
}
