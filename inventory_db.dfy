/**
 * The data-access layer over the `products` and `sales` tables: inserting
 * products, adjusting and overwriting stock, deleting a product together with
 * its sales, and recording a sale as one all-or-nothing transaction.
 */
module Inventory {
  import opened Records
  import opened Queries
  import Decimal

  /** Sale rows are kept in insertion order, which is ascending `sale_id`. */
  predicate SaleIdsIncrease(sales: seq<Sale>)
  {
    forall i, j :: 0 <= i < j < |sales| ==> sales[i].saleId < sales[j].saleId
  }

  /**
   * The sale rows left after deleting product `pid` (`ON DELETE CASCADE`):
   * every row of another product, as often as before, none of `pid`, in the
   * same order.
   */
  function WithoutProduct(sales: seq<Sale>, pid: int): (r: seq<Sale>)
    ensures forall x :: multiset(r)[x] == if x.productId == pid then 0 else multiset(sales)[x]
    ensures forall i :: 0 <= i < |r| ==> r[i] in sales && r[i].productId != pid
    ensures SaleIdsIncrease(sales) ==> SaleIdsIncrease(r)
  {
    if sales == [] then []
    else
      assert sales == [sales[0]] + sales[1..];
      var rest := WithoutProduct(sales[1..], pid);
      if sales[0].productId == pid then rest else [sales[0]] + rest
  }

  /** No product's stock is negative. */
  predicate StockNonNegative(table: ProductTable)
  {
    forall id :: id in table ==> table[id].stock >= 0
  }

  const NotEnoughStockPrefix := "Not enough stock (available: "

  /**
   * The message `record_sale` gives when the stock does not cover the
   * quantity: the fixed text, then the decimal stock, which reads back as
   * `available`, then a closing parenthesis.
   */
  function NotEnoughStock(available: int): (m: string)
    ensures |m| > |NotEnoughStockPrefix| + 1
    ensures m[..|NotEnoughStockPrefix|] == NotEnoughStockPrefix && m[|m| - 1] == ')'
    ensures var number := m[|NotEnoughStockPrefix|..|m| - 1];
      Decimal.IsIntText(number) && Decimal.ParseInt(number) == available
  {
    var number := Decimal.IntToString(available);
    Decimal.IntRoundTrip(available);
    var m := NotEnoughStockPrefix + number + ")";
    assert m[|NotEnoughStockPrefix|..|m| - 1] == number;
    m
  }

  /** The message names the available stock: different stocks give different messages. */
  lemma NotEnoughStockNamesStock(a: int, b: int)
    ensures NotEnoughStock(a) == NotEnoughStock(b) <==> a == b
  {
    if NotEnoughStock(a) == NotEnoughStock(b) {
      var m := NotEnoughStock(a);
      assert Decimal.ParseInt(m[|NotEnoughStockPrefix|..|m| - 1]) == a;
    }
  }

  /**
   * The schema's guarantees over the two tables and their AUTO_INCREMENT
   * counters: keys are positive and below their counter, each product row
   * carries its key and its insertion time, every sale references an existing
   * product (the foreign key), and sale rows are in `sale_id` order.
   */
  ghost predicate Consistent(products: ProductTable, sales: seq<Sale>, nextProductId: int, nextSaleId: int)
  {
    && 1 <= nextProductId
    && 1 <= nextSaleId
    && WellKeyed(products)
    && (forall id :: id in products ==> 1 <= id < nextProductId && products[id].addedDate.Some?)
    && (forall i :: 0 <= i < |sales| ==> sales[i].productId in products)
    && (forall i :: 0 <= i < |sales| ==> 1 <= sales[i].saleId < nextSaleId)
    && SaleIdsIncrease(sales)
  }

  lemma InsertKeepsConsistent(products: ProductTable, sales: seq<Sale>, nextProductId: int, nextSaleId: int, row: Product)
    requires Consistent(products, sales, nextProductId, nextSaleId)
    requires row.id == Some(nextProductId) && row.addedDate.Some?
    ensures nextProductId !in products
    ensures Consistent(products[nextProductId := row], sales, nextProductId + 1, nextSaleId)
  {
  }

  lemma RestockKeepsConsistent(products: ProductTable, sales: seq<Sale>, nextProductId: int, nextSaleId: int, pid: int, stock: int)
    requires Consistent(products, sales, nextProductId, nextSaleId)
    requires pid in products
    ensures Consistent(products[pid := products[pid].(stock := stock)], sales, nextProductId, nextSaleId)
  {
  }

  lemma DeleteKeepsConsistent(products: ProductTable, sales: seq<Sale>, nextProductId: int, nextSaleId: int, pid: int)
    requires Consistent(products, sales, nextProductId, nextSaleId)
    ensures Consistent(products - {pid}, WithoutProduct(sales, pid), nextProductId, nextSaleId)
  {
    var rest := WithoutProduct(sales, pid);
    forall i | 0 <= i < |rest| ensures rest[i].productId in products - {pid} && 1 <= rest[i].saleId < nextSaleId {
      assert rest[i] in sales;
    }
  }

  lemma SaleKeepsConsistent(products: ProductTable, sales: seq<Sale>, nextProductId: int, nextSaleId: int, pid: int, stock: int, sale: Sale)
    requires Consistent(products, sales, nextProductId, nextSaleId)
    requires pid in products
    requires sale.saleId == nextSaleId && sale.productId == pid
    ensures Consistent(products[pid := products[pid].(stock := stock)], sales + [sale], nextProductId, nextSaleId + 1)
  {
  }

  class InventoryDB {
    /** The `products` table, keyed by `id`. */
    var products: ProductTable
    /** The `sales` table, in insertion order. */
    var sales: seq<Sale>
    /** AUTO_INCREMENT counter of `products.id`: the id the next insertion gets. */
    var nextProductId: int
    /** AUTO_INCREMENT counter of `sales.sale_id`. */
    var nextSaleId: int

    ghost predicate Valid()
      reads this
    {
      Consistent(products, sales, nextProductId, nextSaleId)
    }

    /** A freshly created, empty database. */
    constructor ()
      ensures Valid()
      ensures products == map[] && sales == []
      ensures nextProductId == 1 && nextSaleId == 1
    {
      products := map[];
      sales := [];
      nextProductId := 1;
      nextSaleId := 1;
    }

    /**
     * `add_product`: inserts the name, category, price and stock of `p` under
     * a fresh id (any id `p` carries is ignored) stamped with `now`, and
     * returns that id. Nothing is validated: an empty name or a negative price
     * or stock is stored as given.
     */
    method AddProduct(p: Product, now: Timestamp) returns (newId: int)
      requires Valid()
      modifies this
      ensures Valid()
      ensures newId == old(nextProductId) && newId !in old(products) && newId >= 1
      ensures nextProductId == newId + 1 && nextSaleId == old(nextSaleId)
      ensures products == old(products)[newId := Product(Some(newId), p.name, p.category, p.price, p.stock, Some(now))]
      ensures sales == old(sales)
      ensures ProductById(products, newId) == Some(Product(Some(newId), p.name, p.category, p.price, p.stock, Some(now)))
      ensures InventoryValue(products) == old(InventoryValue(products)) + Worth(p)
      ensures ProductsInIdOrder(products) == old(ProductsInIdOrder(products)) + [products[newId]]
    {
      newId := nextProductId;
      var row := Product(Some(newId), p.name, p.category, p.price, p.stock, Some(now));
      InventoryValueAfterWrite(products, newId, row);
      InsertKeepsConsistent(products, sales, nextProductId, nextSaleId, row);
      ListingAfterInsert(products, newId, row);
      WorthOfSamePriceAndStock(row, p);
      products := products[newId := row];
      nextProductId := nextProductId + 1;
    }

    /**
     * `update_stock`: adds `addQty` to the stock of product `pid`. The flag is
     * the server's count of changed rows being positive: false when no product
     * has that id, and false as well when `addQty` is 0 and the row is left as it was.
     */
    method UpdateStock(pid: int, addQty: int) returns (ok: bool)
      requires Valid()
      modifies this
      ensures Valid()
      ensures pid !in old(products) ==> !ok && products == old(products)
      ensures pid in old(products) ==>
        products == old(products)[pid := old(products)[pid].(stock := old(products)[pid].stock + addQty)]
      ensures ok <==> pid in old(products) && addQty != 0
      ensures sales == old(sales)
      ensures nextProductId == old(nextProductId) && nextSaleId == old(nextSaleId)
      ensures pid in old(products) ==>
        InventoryValue(products) == old(InventoryValue(products)) + LineTotal(old(products)[pid], addQty)
    {
      if pid in products {
        var row := products[pid].(stock := products[pid].stock + addQty);
        InventoryValueAfterRestock(products, pid, addQty);
        RestockKeepsConsistent(products, sales, nextProductId, nextSaleId, pid, row.stock);
        products := products[pid := row];
        ok := addQty != 0;
      } else {
        ok := false;
      }
    }

    /**
     * `set_stock`: overwrites the stock of product `pid` with `newStock`. The
     * flag is false when no product has that id, and also when the stock
     * already was `newStock`, since then no row changes.
     */
    method SetStock(pid: int, newStock: int) returns (ok: bool)
      requires Valid()
      modifies this
      ensures Valid()
      ensures pid !in old(products) ==> !ok && products == old(products)
      ensures pid in old(products) ==>
        products == old(products)[pid := old(products)[pid].(stock := newStock)]
      ensures ok <==> pid in old(products) && old(products)[pid].stock != newStock
      ensures sales == old(sales)
      ensures nextProductId == old(nextProductId) && nextSaleId == old(nextSaleId)
      ensures pid in old(products) ==>
        InventoryValue(products) == old(InventoryValue(products)) - Worth(old(products)[pid]) + Worth(products[pid])
    {
      if pid in products {
        ok := products[pid].stock != newStock;
        InventoryValueAfterWrite(products, pid, products[pid].(stock := newStock));
        RestockKeepsConsistent(products, sales, nextProductId, nextSaleId, pid, newStock);
        products := products[pid := products[pid].(stock := newStock)];
      } else {
        ok := false;
      }
    }

    /**
     * `delete_product`: removes product `pid` and, through the cascading
     * foreign key, every sale of it; true exactly when such a product existed.
     */
    method DeleteProduct(pid: int) returns (ok: bool)
      requires Valid()
      modifies this
      ensures Valid()
      ensures ok <==> pid in old(products)
      ensures products == old(products) - {pid}
      ensures sales == WithoutProduct(old(sales), pid)
      ensures ProductById(products, pid) == None
      ensures nextProductId == old(nextProductId) && nextSaleId == old(nextSaleId)
      ensures pid in old(products) ==>
        InventoryValue(products) == old(InventoryValue(products)) - Worth(old(products)[pid])
    {
      ok := pid in products;
      if ok {
        InventoryValueWithout(products, pid);
      }
      DeleteKeepsConsistent(products, sales, nextProductId, nextSaleId, pid);
      products := products - {pid};
      sales := WithoutProduct(sales, pid);
    }

    /**
     * `record_sale`: reads the product's price and stock, refuses an unknown
     * product or a quantity above the stock without changing anything, and
     * otherwise inserts one sale row at the current price and takes the
     * quantity off the stock, both in one transaction. The quantity is not
     * checked to be positive.
     */
    method RecordSale(pid: int, qty: int, now: Timestamp) returns (outcome: SaleOutcome)
      requires Valid()
      modifies this
      ensures Valid()
      ensures pid !in old(products) ==>
        outcome == SaleOutcome(false, None, "Product not found")
      ensures pid in old(products) && old(products)[pid].stock < qty ==>
        outcome == SaleOutcome(false, None, NotEnoughStock(old(products)[pid].stock))
      ensures pid in old(products) && old(products)[pid].stock >= qty ==>
        var before := old(products)[pid];
        var total := LineTotal(before, qty);
        && outcome == SaleOutcome(true, Some(total), "Sale recorded")
        && sales == old(sales) + [Sale(old(nextSaleId), pid, qty, total, now)]
        && products == old(products)[pid := before.(stock := before.stock - qty)]
        && products[pid].stock >= 0
        && InventoryValue(products) == old(InventoryValue(products)) - total
        && DaySum(sales, Date(now)) == old(DaySum(sales, Date(now))) + total
      // all or nothing: a refused sale leaves both tables as they were
      ensures !outcome.ok ==> products == old(products) && sales == old(sales)
      ensures !outcome.ok ==> nextSaleId == old(nextSaleId)
      ensures outcome.ok ==> nextSaleId == old(nextSaleId) + 1
      ensures nextProductId == old(nextProductId)
      ensures StockNonNegative(old(products)) ==> StockNonNegative(products)
    {
      if pid !in products {
        return SaleOutcome(false, None, "Product not found");
      }
      var stock := products[pid].stock;
      if stock < qty {
        return SaleOutcome(false, None, NotEnoughStock(stock));
      }
      var total := LineTotal(products[pid], qty);
      var sale := Sale(nextSaleId, pid, qty, total, now);
      var row := products[pid].(stock := stock - qty);
      var newProducts := products[pid := row];
      var newSales := sales + [sale];
      assert InventoryValue(newProducts) == InventoryValue(products) - total by {
        InventoryValueAfterSale(products, pid, qty);
      }
      assert DaySum(newSales, Date(now)) == DaySum(sales, Date(now)) + total by {
        DaySumAppend(sales, sale, Date(now));
      }
      SaleKeepsConsistent(products, sales, nextProductId, nextSaleId, pid, row.stock, sale);
      sales := newSales;
      nextSaleId := nextSaleId + 1;
      products := newProducts;
      outcome := SaleOutcome(true, Some(total), "Sale recorded");
    }
  }
}
