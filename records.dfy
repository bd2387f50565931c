/**
 * The rows of the inventory store: the `Product` record, which is both what the
 * caller hands to `add_product` and what the queries return, and the rows of the
 * `sales` table.
 */
module Records {

  datatype Option<T> = None | Some(value: T)

  /**
   * A point in time as the store keeps it. `DATE(...)` in a query keeps only
   * the calendar day, so a day number is enough to group and order by day;
   * the time within the day is kept only to tell two timestamps of one day apart.
   * The clock itself is outside the model: the caller supplies "now".
   */
  datatype Timestamp = Timestamp(day: int, secondOfDay: nat)

  /** The calendar day of a timestamp, as `DATE(ts)` computes it. */
  function Date(ts: Timestamp): int
  {
    ts.day
  }

  /**
   * A product row. `id` and `addedDate` are absent on a product that has not
   * been stored yet; the store assigns both on insertion.
   * Prices are exact reals rather than IEEE doubles.
   */
  datatype Product = Product(
    id: Option<int>,
    name: string,
    category: string,
    price: real,
    stock: int,
    addedDate: Option<Timestamp>)

  /** A row of the `sales` table; `productId` references `products.id`. */
  datatype Sale = Sale(
    saleId: int,
    productId: int,
    quantity: int,
    totalPrice: real,
    saleDate: Timestamp)

  /** What `record_sale` returns: success flag, total price when it succeeded, message. */
  datatype SaleOutcome = SaleOutcome(ok: bool, total: Option<real>, message: string)

  /** A row of the sales report: a calendar day and the sum of the sales' totals on it. */
  datatype DayTotal = DayTotal(day: int, total: real)

  /** The `products` table: rows indexed by their primary key. */
  type ProductTable = map<int, Product>

  /** Every row carries its own key as its id, as a row read back from `products` does. */
  ghost predicate WellKeyed(table: ProductTable)
  {
    forall id :: id in table ==> table[id].id == Some(id)
  }

  /** `p` is, field for field, a row currently stored in `table`. */
  predicate InTable(table: ProductTable, p: Product)
  {
    p.id.Some? && p.id.value in table && table[p.id.value] == p
  }

  /**
   * The price of `qty` units of `p` at its current price (`price * qty`):
   * exactly what taking those units off the stock removes from its worth.
   */
  function LineTotal(p: Product, qty: int): (r: real)
    ensures Worth(p.(stock := p.stock - qty)) == Worth(p) - r
  {
    p.price * qty as real
  }

  /** Value of a product's stock at its price (one term of `SUM(price * stock)`). */
  function Worth(p: Product): real
  {
    p.price * p.stock as real
  }
}
