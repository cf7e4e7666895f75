# Product catalogue service: a Dafny model

This project models `ProductsService`, the core of a small product-catalogue
microservice. The service keeps a table of products. Each row has an `id`, an
`available` flag and the product's own columns (name, price, ...). It offers:

- `create`: insert one product.
- `findAll`: a paginated listing of the available products, with metadata
  `page`, `total` and `lastPage`.
- `findOne`: look up an available product by id, or fail with not-found.
- `update`: check that the product exists, strip `id` from the payload, and
  merge the remaining columns into the row.
- `remove`: a soft delete. It checks that the product exists, then clears
  `available`. The row is never deleted.
- `validateProducts`: de-duplicate a list of ids, match rows by id whatever
  their availability, and fail when fewer rows match than there are distinct
  ids.

Layout:

- `products.dfy` (module `Products`): the data model. `Row`, the column map
  `Columns`, the errors `NotFound` and `InvalidIds` (which stand in for the
  RPC exception), `Result`, and the page and metadata records of `findAll`.
- `table.dfy` (module `ProductTable`): the datastore as a value, a
  `seq<Row>` in storage order. The queries and writes the service issues are
  modelled as functions: filter on `available`, skip/take, `findFirst` on id
  and availability, `findMany` with `id in`, and update by id.
- `service.dfy` (module `ProductsService`): the class `ProductsService`. It
  holds the table (`rows`) and the next id to hand out (`nextId`). Its
  methods `Create`, `FindAll`, `FindOne`, `Update`, `Remove` and
  `ValidateProducts` follow the source's control flow. Each one's `ensures`
  states its result and the new table in terms of the old table. Beside the
  class are the pagination arithmetic, the de-duplication, the table
  invariant `WellFormed`, and the lemmas that connect them.

Two details of the code are modelled as written:

- `meta.total` comes from an unfiltered `count()`
  (src/products/products.service.ts:34), so soft-deleted rows are counted
  too. `ListRemoveList` shows this on a one-product table: after the soft
  delete the page is empty and `total` is still 1.
- `validateProducts` matches rows whatever their availability
  (src/products/products.service.ts:101-106).

Assumptions the code does not show:

- A new row gets the next value of an autoincrement counter. Ids start at 1,
  are unique and are below `nextId`.
- A new row starts with `available == true`.
- A payload never carries an `available` column. A creation payload never
  carries an `id` column either. An update payload carries `id` as an
  integer. These shapes are enforced upstream by the DTOs (create, update and
  pagination DTOs), so the model takes them as preconditions, along with
  `page >= 1` and `limit > 0`.

## Model

| member | source | states |
|---|---|---|
| ProductTable.WhereAvailable | src/products/products.service.ts:38-41 | the `available: true` filter keeps exactly the available rows of the table and never more rows than it has |
| ProductTable.WhereAvailableAppend | src/products/products.service.ts:38-41 | the `available: true` filter keeps storage order and never repeats a row: appending a row to the table appends it to the filtered result exactly when it is available |
| ProductTable.WhereAvailableCount | src/products/products.service.ts:38-41 | the filtered result has exactly as many rows as the table has available rows |
| ProductTable.SkipTake | src/products/products.service.ts:42-43 | skip/take yields `min(take, n - skip)` rows when `skip < n` and none otherwise, and entry k is the input's entry `skip + k` |
| ProductTable.FindFirst | src/products/products.service.ts:54-59 | finds a row exactly when some row has that id and is available; the row found is in the table, has that id and is available |
| ProductTable.FindManyIn | src/products/products.service.ts:101-106 | the `id in ids` query returns exactly the rows whose id is listed, available or not |
| ProductTable.MergeFields | src/products/products.service.ts:73-78 | update by id keeps every row's id and availability, leaves rows with other ids unchanged, and merges the data over the target row's columns |
| ProductTable.SetUnavailable | src/products/products.service.ts:88-95 | the soft delete keeps row count, ids and columns, clears `available` only on rows with that id, and afterwards `findFirst` for that id finds nothing |
| ProductTable.MergeFieldsKeepsIds | src/products/products.service.ts:70-78 | an update by id changes neither the set of ids nor their uniqueness |
| ProductTable.MergedRowPresent | src/products/products.service.ts:73-78 | the row that `update` returns is in the table afterwards |
| ProductTable.UnavailableRowPresent | src/products/products.service.ts:88-95 | the row that `remove` returns, now unavailable, is still in the table |
| ProductsService.LastPage | src/products/products.service.ts:35 | `lastPage` is the ceiling of `total / limit`, i.e. the least r with `r * limit >= total` |
| ProductsService.Dedup | src/products/products.service.ts:100 | `Array.from(new Set(ids))` has no repeated id, holds exactly the ids of the input, and is no longer than the input |
| ProductsService.FindManyInCount | src/products/products.service.ts:101-106 | with unique ids in the table, the `in` query returns one row per listed id that exists |
| ProductsService.ValidateCount | src/products/products.service.ts:100-112 | `products.length < ids.length` on the de-duplicated ids holds exactly when some requested id has no row at all |
| ProductsService.CreatedIsFound | src/products/products.service.ts:24-28 | a row appended under a fresh id with `available == true` is what `findFirst` returns for that id |
| ProductsService.UpdatedIsFound | src/products/products.service.ts:72-78 | after an update, `findFirst` for the id returns the same row carrying the merged columns |
| ProductsService.RowOnPage | src/products/products.service.ts:31-49 | available row j is entry `j % limit` of page `j / limit + 1`, and that page is between 1 and `lastPage`, so the pages up to `lastPage` cover every available row |
| ProductsService.InsertKeepsWellFormed | src/products/products.service.ts:24-28 | the next id is fresh, and inserting a row under it keeps ids unique and the table well formed |
| ProductsService.MergeKeepsWellFormed | src/products/products.service.ts:70-78 | merging data that names neither `id` nor `available` keeps the table well formed; stripping `id` from the payload is what makes this hold |
| ProductsService.SoftDeleteKeepsWellFormed | src/products/products.service.ts:88-95 | the soft delete keeps the table well formed |
| ProductsService.ProductsService.Create | src/products/products.service.ts:24-29 | appends exactly one available row with the given columns under a fresh id; earlier rows are untouched |
| ProductsService.ProductsService.FindAll | src/products/products.service.ts:31-51 | `meta.page` echoes the page, `meta.total` counts every row including soft-deleted ones, and `lastPage` is the ceiling of `total / limit`; `data` holds only available rows and is the slice of them at offset `(page - 1) * limit` of length `min(limit, n - offset)` where n is the number of available rows, empty when the offset is at or past n |
| ProductsService.ProductsService.FindOne | src/products/products.service.ts:53-66 | succeeds exactly when some row has the id and is available, and returns that row, which is then the only row with the id; otherwise NotFound(id); the table is unchanged |
| ProductsService.ProductsService.Update | src/products/products.service.ts:68-79 | fails with NotFound and leaves the table unchanged exactly when `findOne` would fail; otherwise merges the payload minus `id` into the target row, returns it with id and availability unchanged, and leaves all other rows as they were |
| ProductsService.ProductsService.Remove | src/products/products.service.ts:81-96 | fails with NotFound and leaves the table unchanged exactly when there is no available row with the id; otherwise clears `available` on it, keeps the row count, and returns the row now unavailable |
| ProductsService.ProductsService.ValidateProducts | src/products/products.service.ts:98-115 | fails with InvalidIds exactly when some requested id has no row, available or not; otherwise returns exactly the rows whose id was requested, one per distinct id |
| ProductsService.ProductsService.RemoveThenLookUp | src/products/products.service.ts:81-82 | after a successful `remove`, a second `remove` and a `findOne` of the same id both fail with NotFound |
| ProductsService.ProductsService.CreateThenLookUp | src/products/products.service.ts:24-28 | a created product is available and immediately returned by `findOne` |
| ProductsService.ProductsService.ListRemoveList | src/products/products.service.ts:34-48 | on a one-product table, a soft delete empties the first page while `meta.total` and `lastPage` stay 1 |

## Left out

- `onModuleInit`, the database connection, the logger and `console.log`: these are connection lifecycle and logging I/O.
- The Prisma client and the service's inheritance from it. The table is an abstract value. Only the query features the service uses are modelled: equality filters, `in`, skip/take, count and partial update by id.
- `async`/`await`, and the gap between the existence check and the write in `update` and `remove`. Each operation is modelled as atomic, so the model does not capture interleavings with concurrent callers.
- The status and message of the RPC exceptions. Errors are bare constructors: `NotFound(id)` and `InvalidIds`.
- DTO validation. Its effects are preconditions: `page >= 1`, `limit > 0`, a numeric `id` in the update payload, and no `id` or `available` column in creation or update data.
- `Math.ceil` over floating point. The model uses integer ceiling division, which gives the same value for the non-negative integers involved.
- Result order beyond storage order. `findMany` is specified with no order, and the model returns rows in storage order.
- How the database generates ids, and the schema default of `available`. The model uses an autoincrement counter and `available == true` on insert.
- ProductsService.Dedup: its contract does not state that the ids keep their first-occurrence order. The definition keeps that order, but the membership query ignores order, so no other result depends on it.
