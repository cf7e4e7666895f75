/** The product catalogue's data model: the row stored for each product, the
    column maps that creation and update payloads carry, and the results and
    errors the service returns. */
module Products {

  /** A value held in one of a product's own columns (its name, its price, ...). */
  datatype Value =
    | IntValue(n: int)
    | DecimalValue(d: real)
    | TextValue(s: string)
    | BoolValue(b: bool)

  /** Column name to value: a creation payload, an update payload, or the
      product-specific columns of a stored row. */
  type Columns = map<string, Value>

  /** The two columns the store manages itself. */
  const IdColumn: string := "id"
  const AvailableColumn: string := "available"

  /** A column map that touches neither the id nor the availability flag. */
  predicate ProductColumns(c: Columns)
  {
    IdColumn !in c && AvailableColumn !in c
  }

  /** One row of the product table. `available` is the soft-delete flag:
      a row with `available == false` has been removed but is still stored. */
  datatype Row = Row(id: int, available: bool, fields: Columns)

  datatype Option<T> = None | Some(value: T)

  /** The two failures the service reports (as an RPC exception in the source). */
  datatype Error =
    | NotFound(id: int)  // no available product with this id
    | InvalidIds         // some requested id has no row at all

  datatype Result<T> = Ok(value: T) | Err(error: Error)

  /** The metadata `findAll` returns beside a page of rows. */
  datatype Meta = Meta(page: int, total: nat, lastPage: nat)

  datatype Page = Page(data: seq<Row>, meta: Meta)
}
