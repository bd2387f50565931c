# Inventory store: a verified model

This project models the data-access layer of a small Streamlit inventory
application. The layer is the `InventoryDBMySQL` class of `inventory.py` together
with its `Product` record. It keeps two MySQL tables:

- `products`: an AUTO_INCREMENT id, name, category, price, stock and the insertion time.
- `sales`: an AUTO_INCREMENT sale id, a product id, a quantity, a total price and the sale time. The product id is a foreign key with `ON DELETE CASCADE`.

Its operations are:

- add a product;
- list the products by id and look one up;
- add to a stock or overwrite it;
- delete a product, which also deletes its sales;
- list the products whose stock is below a threshold (10 by default), by stock;
- record a sale, which refuses an unknown product or too little stock, inserts a sale row and lowers the stock in one transaction;
- report the sales summed per calendar day;
- sum `price * stock` over all products.

The files and modules:

- `records.dfy` (module `Records`): the rows.
  - `Product` models the dataclass.
  - `Sale` is a row of `sales`.
  - `SaleOutcome` is the triple `record_sale` returns.
  - `DayTotal` is a row of the sales report.
  - A caller-supplied `Timestamp` whose calendar day is what `DATE(...)` keeps.
- `queries.dfy` (module `Queries`): the read-only queries as functions over the `products` map and the `sales` sequence, with the lemmas about them.
- `inventory_db.dfy` (module `Inventory`): the class `InventoryDB`. It holds both tables and their AUTO_INCREMENT counters as fields, and each statement that writes is a method. The invariant `Valid` states the schema's guarantees:
  - keys below their counters;
  - every row carries its own key;
  - the foreign key;
  - sale rows in `sale_id` order.
- `decimal.dfy` (module `Decimal`): decimal rendering of an integer, as the `{stock}` of an f-string produces it, with its parser and the round trip between them.

## Model

| member | source | states |
|---|---|---|
| Inventory.InventoryDB.constructor | inventory.py:35-62 | A new store has empty `products` and `sales` tables and both AUTO_INCREMENT counters at 1, and satisfies the schema invariant |
| Inventory.InventoryDB.AddProduct | inventory.py:66-73 | Inserts name, category, price and stock under the next AUTO_INCREMENT id, which was unused. The id the input carries is ignored. The row is stamped with the insertion time. Returns that id. The row reads back by id. The listing gains exactly this row at its end. The inventory value grows by price*stock. Sales are untouched and the invariant is kept |
| Inventory.InventoryDB.UpdateStock | inventory.py:93-100 | Adds `addQty` to the stock of `pid` and changes nothing else. The flag is true iff the product exists and the row changed (`addQty != 0`). An unknown id changes nothing. The inventory value moves by `addQty` units at the product's price |
| Inventory.InventoryDB.SetStock | inventory.py:102-109 | Overwrites the stock of `pid` and changes nothing else. The flag is true iff the product exists and its stock differed. An unknown id changes nothing. The inventory value changes by the new worth minus the old |
| Inventory.InventoryDB.DeleteProduct | inventory.py:111-118 | True iff the product existed. Afterwards it is gone, all its sales are gone through the cascade, other rows are kept in order, and the lookup gives nothing. The inventory value loses that product's worth |
| Inventory.InventoryDB.RecordSale | inventory.py:130-164 | The three outcomes of the source. Unknown product: "Product not found". Stock below qty: the "Not enough stock (available: N)" message. Otherwise: success with total price*qty, one sale row appended under the next sale id, the sale-id counter advanced by one, stock lowered by qty and never below 0. A refusal changes no table (all or nothing). The inventory value falls by the total and the sale's day sum rises by it |
| Inventory.WithoutProduct | inventory.py:54 | The cascade on `sales`: each sale of another product survives exactly as often as before, none of the deleted product does, and `sale_id` order is kept |
| Inventory.NotEnoughStock | inventory.py:141-142 | The refusal message is the fixed text, then the decimal stock, then `)`. The number in it parses back to the available stock |
| Inventory.NotEnoughStockNamesStock | inventory.py:141-142 | The refusal message determines the available stock it reports, in both directions |
| Decimal.IntRoundTrip | inventory.py:142 | The decimal text of the stock in the message parses back to the same integer |
| Decimal.NatRoundTrip | inventory.py:142 | Digits of a natural number parse back to it |
| Queries.ProductsInIdOrder | inventory.py:75-81 | `get_products` returns every stored product exactly once and nothing else, with strictly ascending ids |
| Queries.ListingAfterInsert | inventory.py:38 | A row inserted under a key above every existing key appears exactly once, at the end of the id-ordered listing, after the old listing |
| Queries.ProductById | inventory.py:83-91 | `get_product_by_id` gives nothing iff no product has the id, and otherwise the stored row with that id |
| Queries.LookupAgreesWithListing | inventory.py:75-91 | A lookup finds a row iff that row is in the full listing with that id |
| Queries.SortedKeys | inventory.py:76 | `ORDER BY id`: each key exactly once, strictly ascending |
| Queries.IncreasingIsUnique | inventory.py:76 | An ascending order of distinct keys is unique, so `ORDER BY` on a key fixes the listing |
| Queries.LowStock | inventory.py:120-126 | `low_stock` returns each stored product whose stock is below the threshold exactly once and no other row, in ascending stock order. The threshold defaults to 10 |
| Queries.SortByStock | inventory.py:121 | `ORDER BY stock`: ascending in stock and a permutation of its input |
| Queries.StockBelow | inventory.py:121 | `WHERE stock < threshold`: keeps each row below the threshold as often as before and drops every other row |
| Queries.SalesReport | inventory.py:166-177 | One row per distinct calendar day on which a sale was made, no other day, days strictly ascending, each carrying the sum of that day's sale totals |
| Queries.ReportAddsUpToAllSales | inventory.py:166-177 | The day totals of the report add up to the total of all sales: no sale is dropped or counted twice |
| Queries.DaySum | inventory.py:168-170 | `SUM(total_price)` for one `DATE(sale_date)` group: 0 when no sale falls on that day, the total of all sales when every sale does |
| Queries.DaySumIgnoresTimeOfDay | inventory.py:168-171 | Grouping is by `DATE(sale_date)`: moving a sale to another time on the same calendar day leaves every day's sum unchanged |
| Queries.DaySumAppend | inventory.py:146-149 | A new sale adds its total to the sum of its own day and to no other day |
| Queries.InventoryValue | inventory.py:179-185 | The sum of price*stock over all products, and 0.0 for an empty table |
| Queries.InventoryValueIsListingSum | inventory.py:179-185 | The total equals the sum of price*stock over the `get_products` listing, so the order of summation does not matter |
| Queries.InventoryValueWithout | inventory.py:180 | Any one product's price*stock can be split off the sum |
| Queries.InventoryValueAfterWrite | inventory.py:180 | Inserting or replacing one row changes the sum by the new row's worth minus the old row's worth |
| Records.LineTotal | inventory.py:144 | A sale's total `price * qty` is exactly what taking qty units off the stock removes from price*stock |
| Queries.InventoryValueAfterRestock | inventory.py:94 | Adding delta to one stock raises the sum by delta units at that product's price |
| Queries.InventoryValueAfterSale | inventory.py:151-154 | Lowering one stock by qty lowers the sum by qty at that product's price |

## Left out

- The Streamlit user interface (`inventory.py` from line 187 on) is not part of this model.
- The connection (`connect`) and the DDL that `ensure_tables` sends are not modelled as I/O. The constructor starts from the empty tables that the schema describes, instead of attaching to tables that already exist.
- Prices and totals are exact reals rather than IEEE doubles, so rounding in `price * qty` and in `SUM` is not modelled.
- `CURRENT_TIMESTAMP` becomes a timestamp the caller passes in. `DATE(...)` is the timestamp's day number. The `str(...)` formatting of dates in results is not modelled.
- Inventory.InventoryDB.RecordSale: the `except` branch (rollback, returning the exception text) is not modelled, because no statement in the model can fail. Atomicity is stated instead: a refused sale changes no table.
- Concurrent connections, and isolation between them, are not modelled.
- The 32-bit range of the `INT` columns is not modelled: ids, stocks and quantities are unbounded integers.
- Inventory.InventoryDB.AddProduct: the 255-character limit of the `VARCHAR(255)` columns `name` and `category` is not modelled. Beyond it, MySQL in strict mode rejects the INSERT with an error that reaches the caller and stores nothing, and without strict mode it stores the value cut to 255 characters. The model stores any string whole, so its read-back promise holds only for values within that limit.
- A NULL `category` (and the `or ""` that `get_products` applies to it) is not modelled: categories are always strings.
- Queries.LowStock: the source's `ORDER BY stock` leaves the order of equal stocks to the server. The model orders them by id and states only the order by stock.
- Inventory.InventoryDB.UpdateStock: the flag follows MySQL's default count of changed rows, so setting a value the row already has reports false. This applies to `SetStock` too.
- No input is validated: negative prices, stocks and quantities, and empty names, are stored as given, just as the source does, for names and categories within the 255-character column width. Validation is desirable, but the code performs none, and the model follows the code.
