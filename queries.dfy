/**
 * The read-only queries of the inventory store, as functions of the current
 * tables: the product listing in id order, lookup by id, the low-stock list,
 * the per-day sales report and the total inventory value.
 */
module Queries {
  import opened Records

  // ---------------------------------------------------------------------------
  // Keys in ascending order (what `ORDER BY id` and `ORDER BY DATE(...)` walk)
  // ---------------------------------------------------------------------------

  /** A non-empty set has a member to pick. */
  lemma NonEmptyHasMember(keys: set<int>)
    requires keys != {}
    ensures exists k :: k in keys
  {
    if forall k :: k !in keys {
      assert false;
    }
  }

  predicate IsLeast(m: int, keys: set<int>)
  {
    m in keys && forall x :: x in keys ==> m <= x
  }

  lemma {:induction false} HasLeast(keys: set<int>)
    requires keys != {}
    ensures exists m :: IsLeast(m, keys)
    decreases keys
  {
    NonEmptyHasMember(keys);
    var x :| x in keys;
    if forall y :: y in keys ==> y == x {
      assert IsLeast(x, keys);
    } else {
      var y :| y in keys && y != x;
      var rest := keys - {x};
      assert y in rest;
      HasLeast(rest);
      var m :| IsLeast(m, rest);
      forall z | z in keys ensures x <= z || m <= z {
        if z != x { assert z in rest; }
      }
      if x < m {
        assert IsLeast(x, keys);
      } else {
        assert IsLeast(m, keys);
      }
    }
  }

  /** The least key of a non-empty set. */
  function Least(keys: set<int>): (m: int)
    requires keys != {}
    ensures IsLeast(m, keys)
  {
    HasLeast(keys);
    var m :| m in keys && IsLeast(m, keys);
    m
  }

  predicate StrictlyIncreasing(s: seq<int>)
  {
    forall i, j :: 0 <= i < j < |s| ==> s[i] < s[j]
  }

  /** Every key of the set exactly once, in ascending order. */
  function SortedKeys(keys: set<int>): (r: seq<int>)
    ensures StrictlyIncreasing(r)
    ensures forall k :: k in r <==> k in keys
    ensures |r| == |keys|
    decreases keys
  {
    if keys == {} then []
    else
      var k := Least(keys);
      var rest := SortedKeys(keys - {k});
      assert |keys - {k}| == |keys| - 1;
      [k] + rest
  }

  /** Ascending order is unique: two increasing sequences with the same members are equal. */
  lemma {:induction false} IncreasingIsUnique(s: seq<int>, t: seq<int>)
    requires StrictlyIncreasing(s) && StrictlyIncreasing(t)
    requires |s| == |t|
    requires forall k :: k in s <==> k in t
    ensures s == t
  {
    if s != [] {
      assert t[0] in s && s[0] in t;
      assert s[0] == t[0];
      forall k ensures k in s[1..] <==> k in t[1..] {
        if k in s[1..] { assert k in s && k != s[0]; }
        if k in t[1..] { assert k in t && k != t[0]; }
      }
      IncreasingIsUnique(s[1..], t[1..]);
      assert s == [s[0]] + s[1..] && t == [t[0]] + t[1..];
    }
  }

  /** A key above all present keys goes last. */
  lemma SortedKeysWithGreatest(keys: set<int>, k: int)
    requires forall x :: x in keys ==> x < k
    ensures SortedKeys(keys + {k}) == SortedKeys(keys) + [k]
  {
    var s := SortedKeys(keys) + [k];
    forall i, j | 0 <= i < j < |s| ensures s[i] < s[j] {
      if j == |s| - 1 { assert s[i] in keys; }
    }
    assert k !in keys;
    assert |keys + {k}| == |keys| + 1;
    IncreasingIsUnique(SortedKeys(keys + {k}), s);
  }

  // ---------------------------------------------------------------------------
  // get_products / get_product_by_id
  // ---------------------------------------------------------------------------

  /** The rows stored under the given ids, in that order. */
  function RowsAt(table: ProductTable, ids: seq<int>): (r: seq<Product>)
    requires forall i :: 0 <= i < |ids| ==> ids[i] in table
    ensures |r| == |ids|
    ensures forall i :: 0 <= i < |ids| ==> r[i] == table[ids[i]]
  {
    seq(|ids|, i requires 0 <= i < |ids| => table[ids[i]])
  }

  /**
   * `SELECT ... FROM products ORDER BY id`: every stored product exactly once
   * (the ids strictly increase, so none repeats), nothing else, ascending by id.
   */
  function ProductsInIdOrder(table: ProductTable): (r: seq<Product>)
    requires WellKeyed(table)
    ensures |r| == |table|
    ensures forall p :: p in r <==> InTable(table, p)
    ensures forall i :: 0 <= i < |r| ==> r[i].id.Some?
    ensures forall i, j :: 0 <= i < j < |r| ==> r[i].id.value < r[j].id.value
  {
    var ids := SortedKeys(table.Keys);
    RowsAtSortedKeys(table, ids);
    RowsAt(table, ids)
  }

  lemma RowsAtSortedKeys(table: ProductTable, ids: seq<int>)
    requires WellKeyed(table)
    requires StrictlyIncreasing(ids)
    requires forall k :: k in ids <==> k in table
    requires |ids| == |table.Keys|
    ensures forall i :: 0 <= i < |ids| ==> ids[i] in table
    ensures var r := RowsAt(table, ids);
      && |r| == |table|
      && (forall p :: p in r <==> InTable(table, p))
      && (forall i :: 0 <= i < |r| ==> r[i].id == Some(ids[i]))
  {
    forall i | 0 <= i < |ids| ensures ids[i] in table {
      assert ids[i] in ids;
    }
    var r := RowsAt(table, ids);
    assert |table.Keys| == |table|;
    forall p | p in r ensures InTable(table, p) {
      var i :| 0 <= i < |r| && r[i] == p;
      assert p == table[ids[i]];
    }
    forall p | InTable(table, p) ensures p in r {
      var i := IndexOf(ids, p.id.value);
      assert r[i] == p;
    }
  }

  /**
   * A product stored under an id above every present id (as AUTO_INCREMENT
   * assigns) is listed last, after the unchanged listing of the others.
   */
  lemma ListingAfterInsert(table: ProductTable, k: int, p: Product)
    requires WellKeyed(table)
    requires forall id :: id in table ==> id < k
    requires p.id == Some(k)
    ensures WellKeyed(table[k := p])
    ensures ProductsInIdOrder(table[k := p]) == ProductsInIdOrder(table) + [p]
  {
    GrownKeys(table, k, p);
    SortedKeysPresent(table.Keys);
    RowsAtAppend(table, SortedKeys(table.Keys), k, p);
  }

  lemma SortedKeysPresent(keys: set<int>)
    ensures forall i :: 0 <= i < |SortedKeys(keys)| ==> SortedKeys(keys)[i] in keys
  {
    var ids := SortedKeys(keys);
    forall i | 0 <= i < |ids| ensures ids[i] in keys {
      assert ids[i] in ids;
    }
  }

  lemma GrownKeys(table: ProductTable, k: int, p: Product)
    requires forall id :: id in table ==> id < k
    ensures SortedKeys(table[k := p].Keys) == SortedKeys(table.Keys) + [k]
  {
    assert table[k := p].Keys == table.Keys + {k};
    SortedKeysWithGreatest(table.Keys, k);
  }

  lemma RowsAtAppend(table: ProductTable, ids: seq<int>, k: int, p: Product)
    requires forall i :: 0 <= i < |ids| ==> ids[i] in table
    requires k !in table
    ensures RowsAt(table[k := p], ids + [k]) == RowsAt(table, ids) + [p]
  {
    var before, after := RowsAt(table, ids), RowsAt(table[k := p], ids + [k]);
    forall i | 0 <= i < |after| ensures after[i] == (before + [p])[i] {
      if i < |ids| {
        assert (ids + [k])[i] == ids[i];
      }
    }
  }

  /** Position of a key in a sequence that contains it. */
  function IndexOf(s: seq<int>, k: int): (i: nat)
    requires k in s
    ensures i < |s| && s[i] == k
  {
    if s[0] == k then 0 else 1 + IndexOf(s[1..], k)
  }

  /**
   * `SELECT ... WHERE id = pid`: `None` exactly when no row has that id,
   * otherwise the row itself.
   */
  function ProductById(table: ProductTable, pid: int): (r: Option<Product>)
    requires WellKeyed(table)
    ensures r.None? <==> pid !in table
    ensures r.Some? ==> InTable(table, r.value) && r.value.id == Some(pid)
  {
    if pid in table then Some(table[pid]) else None
  }

  /** Lookup by id finds exactly the product the listing shows under that id. */
  lemma LookupAgreesWithListing(table: ProductTable, pid: int, p: Product)
    requires WellKeyed(table)
    ensures ProductById(table, pid) == Some(p) <==> p in ProductsInIdOrder(table) && p.id == Some(pid)
  {
  }

  // ---------------------------------------------------------------------------
  // low_stock
  // ---------------------------------------------------------------------------

  predicate SortedByStock(s: seq<Product>)
  {
    forall i, j :: 0 <= i < j < |s| ==> s[i].stock <= s[j].stock
  }

  predicate Distinct(s: seq<Product>)
  {
    forall i, j :: 0 <= i < j < |s| ==> s[i] != s[j]
  }

  /** Places `p` before the first row whose stock is not below its own. */
  function InsertByStock(p: Product, s: seq<Product>): (r: seq<Product>)
    requires SortedByStock(s)
    ensures SortedByStock(r)
    ensures multiset(r) == multiset(s) + multiset{p}
    ensures forall i :: 0 <= i < |r| ==> r[i] == p || r[i] in s
  {
    if s == [] || p.stock <= s[0].stock then [p] + s
    else
      var rest := InsertByStock(p, s[1..]);
      assert s == [s[0]] + s[1..];
      InsertBehindHead(s[0], p, s[1..], rest);
      [s[0]] + rest
  }

  /** Putting a head whose stock is at most every other row's in front keeps the order. */
  lemma InsertBehindHead(h: Product, p: Product, tail: seq<Product>, rest: seq<Product>)
    requires SortedByStock(rest)
    requires h.stock < p.stock
    requires forall j :: 0 <= j < |tail| ==> h.stock <= tail[j].stock
    requires forall i :: 0 <= i < |rest| ==> rest[i] == p || rest[i] in tail
    ensures SortedByStock([h] + rest)
  {
    var r := [h] + rest;
    forall i, j | 0 <= i < j < |r| ensures r[i].stock <= r[j].stock {
      if i == 0 {
        assert r[j] == rest[j - 1];
      } else {
        assert r[i] == rest[i - 1] && r[j] == rest[j - 1];
      }
    }
  }

  /** Insertion sort on stock. */
  function SortByStock(s: seq<Product>): (r: seq<Product>)
    ensures SortedByStock(r)
    ensures multiset(r) == multiset(s)
  {
    if s == [] then []
    else
      assert s == [s[0]] + s[1..];
      InsertByStock(s[0], SortByStock(s[1..]))
  }

  /** The rows of `s` whose stock is below `threshold`, in their order. */
  function StockBelow(s: seq<Product>, threshold: int): (r: seq<Product>)
    ensures forall p :: multiset(r)[p] == if p.stock < threshold then multiset(s)[p] else 0
  {
    if s == [] then []
    else
      assert s == [s[0]] + s[1..];
      var rest := StockBelow(s[1..], threshold);
      if s[0].stock < threshold then [s[0]] + rest else rest
  }

  lemma {:induction false} DistinctCount(s: seq<Product>)
    requires Distinct(s)
    ensures forall p :: multiset(s)[p] == if p in s then 1 else 0
  {
    if s != [] {
      assert s == [s[0]] + s[1..];
      assert Distinct(s[1..]) by {
        forall i, j | 0 <= i < j < |s[1..]| ensures s[1..][i] != s[1..][j] {
          assert s[1..][i] == s[i + 1] && s[1..][j] == s[j + 1];
        }
      }
      DistinctCount(s[1..]);
      assert s[0] !in s[1..] by {
        forall i | 0 <= i < |s[1..]| ensures s[1..][i] != s[0] {
          assert s[1..][i] == s[i + 1];
        }
      }
    }
  }

  /** The default threshold of `low_stock`. */
  const DefaultLowStockThreshold := 10

  /**
   * `SELECT ... WHERE stock < threshold ORDER BY stock`: each stored product
   * whose stock is below the threshold exactly once, no other row, ascending
   * by stock.
   */
  function LowStock(table: ProductTable, threshold: int := DefaultLowStockThreshold): (r: seq<Product>)
    requires WellKeyed(table)
    ensures SortedByStock(r)
    ensures forall p :: multiset(r)[p] == if InTable(table, p) && p.stock < threshold then 1 else 0
    ensures forall i :: 0 <= i < |r| ==> InTable(table, r[i]) && r[i].stock < threshold
  {
    LowStockExact(table, threshold);
    SortByStock(StockBelow(ProductsInIdOrder(table), threshold))
  }

  lemma LowStockExact(table: ProductTable, threshold: int)
    requires WellKeyed(table)
    ensures var r := SortByStock(StockBelow(ProductsInIdOrder(table), threshold));
      && (forall p :: multiset(r)[p] == if InTable(table, p) && p.stock < threshold then 1 else 0)
      && (forall i :: 0 <= i < |r| ==> InTable(table, r[i]) && r[i].stock < threshold)
  {
    var listing := ProductsInIdOrder(table);
    forall i, j | 0 <= i < j < |listing| ensures listing[i] != listing[j] {
      assert listing[i].id.value < listing[j].id.value;
    }
    DistinctCount(listing);
    var below := StockBelow(listing, threshold);
    var r := SortByStock(below);
    forall p ensures multiset(r)[p] == if InTable(table, p) && p.stock < threshold then 1 else 0 {
      assert multiset(r)[p] == multiset(below)[p];
      assert multiset(listing)[p] == if InTable(table, p) then 1 else 0;
    }
    forall i | 0 <= i < |r| ensures InTable(table, r[i]) && r[i].stock < threshold {
      assert r[i] in multiset(r);
    }
  }

  // ---------------------------------------------------------------------------
  // get_sales_report
  // ---------------------------------------------------------------------------

  /** The distinct calendar days on which some sale was recorded. */
  function SaleDays(sales: seq<Sale>): set<int>
  {
    set i | 0 <= i < |sales| :: Date(sales[i].saleDate)
  }

  /**
   * `SUM(total_price)` over the sales recorded on day `d`: nothing when no
   * sale falls on that day, everything when all of them do.
   */
  function DaySum(sales: seq<Sale>, d: int): (r: real)
    ensures (forall i :: 0 <= i < |sales| ==> Date(sales[i].saleDate) != d) ==> r == 0.0
    ensures (forall i :: 0 <= i < |sales| ==> Date(sales[i].saleDate) == d) ==> r == SalesTotal(sales)
  {
    if sales == [] then 0.0
    else (if Date(sales[0].saleDate) == d then sales[0].totalPrice else 0.0) + DaySum(sales[1..], d)
  }

  /**
   * Grouping is by `DATE(sale_date)`: moving a sale to another time of the
   * same calendar day changes no day's sum.
   */
  lemma {:induction false} DaySumIgnoresTimeOfDay(sales: seq<Sale>, i: int, t: Timestamp, d: int)
    requires 0 <= i < |sales| && Date(t) == Date(sales[i].saleDate)
    ensures DaySum(sales[i := sales[i].(saleDate := t)], d) == DaySum(sales, d)
  {
    var moved := sales[i := sales[i].(saleDate := t)];
    if i > 0 {
      assert moved[1..] == sales[1..][i - 1 := sales[i].(saleDate := t)];
      DaySumIgnoresTimeOfDay(sales[1..], i - 1, t, d);
    } else {
      assert moved[1..] == sales[1..];
    }
  }

  /** Sum of the totals of all sales. */
  function SalesTotal(sales: seq<Sale>): real
  {
    if sales == [] then 0.0 else sales[0].totalPrice + SalesTotal(sales[1..])
  }

  /** Sum of the totals in a report. */
  function ReportTotal(rows: seq<DayTotal>): real
  {
    if rows == [] then 0.0 else rows[0].total + ReportTotal(rows[1..])
  }

  function ReportRows(sales: seq<Sale>, days: seq<int>): (r: seq<DayTotal>)
    ensures |r| == |days|
    ensures forall i :: 0 <= i < |r| ==> r[i].day == days[i]
  {
    if days == [] then []
    else [DayTotal(days[0], DaySum(sales, days[0]))] + ReportRows(sales, days[1..])
  }

  /**
   * `SELECT DATE(sale_date), SUM(total_price) ... GROUP BY DATE(sale_date)
   * ORDER BY DATE(sale_date)`: one row per distinct sale day, ascending by
   * day, carrying the sum of that day's totals.
   */
  function SalesReport(sales: seq<Sale>): (r: seq<DayTotal>)
    ensures forall i, j :: 0 <= i < j < |r| ==> r[i].day < r[j].day
    ensures forall i :: 0 <= i < |r| ==> r[i].day in SaleDays(sales)
    ensures forall d :: d in SaleDays(sales) ==> exists i :: 0 <= i < |r| && r[i].day == d
    ensures forall i :: 0 <= i < |r| ==> r[i].total == DaySum(sales, r[i].day)
  {
    var days := SortedKeys(SaleDays(sales));
    ReportRowsAt(sales, days);
    forall d | d in SaleDays(sales) ensures exists i :: 0 <= i < |days| && days[i] == d {
      var i := IndexOf(days, d);
    }
    forall i | 0 <= i < |days| ensures days[i] in SaleDays(sales) {
      assert days[i] in days;
    }
    ReportRows(sales, days)
  }

  lemma {:induction false} ReportRowsAt(sales: seq<Sale>, days: seq<int>)
    ensures forall i :: 0 <= i < |days| ==> ReportRows(sales, days)[i] == DayTotal(days[i], DaySum(sales, days[i]))
  {
    if days != [] {
      ReportRowsAt(sales, days[1..]);
    }
  }

  /** A sale adds its total to its own day and to no other. */
  lemma {:induction false} DaySumAppend(sales: seq<Sale>, s: Sale, d: int)
    ensures DaySum(sales + [s], d) == DaySum(sales, d) + (if Date(s.saleDate) == d then s.totalPrice else 0.0)
  {
    if sales != [] {
      assert (sales + [s])[1..] == sales[1..] + [s];
      DaySumAppend(sales[1..], s, d);
    }
  }

  /** Splitting off the first sale from every day's sum over a list of distinct days. */
  lemma {:induction false} ReportTotalSplit(sales: seq<Sale>, days: seq<int>)
    requires sales != []
    requires StrictlyIncreasing(days)
    ensures ReportTotal(ReportRows(sales, days))
         == ReportTotal(ReportRows(sales[1..], days))
          + (if Date(sales[0].saleDate) in days then sales[0].totalPrice else 0.0)
  {
    if days != [] {
      ReportTotalSplit(sales, days[1..]);
      assert Date(sales[0].saleDate) in days <==>
        Date(sales[0].saleDate) == days[0] || Date(sales[0].saleDate) in days[1..];
      if Date(sales[0].saleDate) == days[0] {
        assert Date(sales[0].saleDate) !in days[1..];
      }
    }
  }

  lemma {:induction false} ReportTotalCoversSales(sales: seq<Sale>, days: seq<int>)
    requires StrictlyIncreasing(days)
    requires forall i :: 0 <= i < |sales| ==> Date(sales[i].saleDate) in days
    ensures ReportTotal(ReportRows(sales, days)) == SalesTotal(sales)
  {
    if sales == [] {
      ReportTotalOfNoSales(days);
    } else {
      ReportTotalSplit(sales, days);
      assert Date(sales[0].saleDate) in days;
      ReportTotalCoversSales(sales[1..], days);
    }
  }

  lemma {:induction false} ReportTotalOfNoSales(days: seq<int>)
    ensures ReportTotal(ReportRows([], days)) == 0.0
  {
    if days != [] {
      ReportTotalOfNoSales(days[1..]);
    }
  }

  /** The report's day totals add up to the total of all sales: no sale is lost or counted twice. */
  lemma ReportAddsUpToAllSales(sales: seq<Sale>)
    ensures ReportTotal(SalesReport(sales)) == SalesTotal(sales)
  {
    var days := SortedKeys(SaleDays(sales));
    assert forall i :: 0 <= i < |sales| ==> Date(sales[i].saleDate) in SaleDays(sales);
    ReportTotalCoversSales(sales, days);
  }

  // ---------------------------------------------------------------------------
  // get_total_inventory_value
  // ---------------------------------------------------------------------------

  /** `SUM(price * stock)` over all products, and 0 when there is none. */
  function InventoryValue(table: ProductTable): (v: real)
    ensures table == map[] ==> v == 0.0
    decreases table.Keys
  {
    if table.Keys == {} then 0.0
    else
      var k := Least(table.Keys);
      Worth(table[k]) + InventoryValue(table - {k})
  }

  /** Any one product's worth can be taken out of the sum first. */
  lemma {:induction false} InventoryValueWithout(table: ProductTable, k: int)
    requires k in table
    ensures InventoryValue(table) == Worth(table[k]) + InventoryValue(table - {k})
    decreases table.Keys
  {
    var m := Least(table.Keys);
    if m != k {
      InventoryValueWithout(table - {m}, k);
      assert (table - {m}) - {k} == (table - {k}) - {m};
      var rest := (table - {k}).Keys;
      assert m in rest;
      assert Least(rest) in table.Keys;
    }
  }

  /** The worth of a list of rows, summed front to back. */
  function ListingValue(rows: seq<Product>): real
  {
    if rows == [] then 0.0 else Worth(rows[0]) + ListingValue(rows[1..])
  }

  /**
   * The total does not depend on the order the rows are summed in: it equals
   * the sum over the listing `get_products` returns.
   */
  lemma {:induction false} InventoryValueIsListingSum(table: ProductTable)
    requires WellKeyed(table)
    ensures InventoryValue(table) == ListingValue(ProductsInIdOrder(table))
    decreases table.Keys
  {
    if table.Keys != {} {
      var m := Least(table.Keys);
      var rest := table - {m};
      assert rest.Keys == table.Keys - {m};
      var ids := SortedKeys(table.Keys);
      assert ids == [m] + SortedKeys(rest.Keys);
      ListingDropsLeast(table, m, ids, SortedKeys(rest.Keys));
      InventoryValueIsListingSum(rest);
    }
  }

  /** The listing of a table is its least row followed by the listing of the rest. */
  lemma ListingDropsLeast(table: ProductTable, m: int, ids: seq<int>, restIds: seq<int>)
    requires WellKeyed(table)
    requires ids == SortedKeys(table.Keys) && restIds == SortedKeys((table - {m}).Keys)
    requires ids == [m] + restIds
    ensures WellKeyed(table - {m})
    ensures ProductsInIdOrder(table) == [table[m]] + ProductsInIdOrder(table - {m})
  {
    var rest := table - {m};
    SortedKeysPresent(table.Keys);
    SortedKeysPresent(rest.Keys);
    var whole := RowsAt(table, ids);
    var tail := RowsAt(rest, restIds);
    assert ProductsInIdOrder(table) == whole;
    assert ProductsInIdOrder(rest) == tail;
    RowsAtCons(table, m, restIds);
  }

  lemma RowsAtCons(table: ProductTable, m: int, restIds: seq<int>)
    requires m in table
    requires forall i :: 0 <= i < |restIds| ==> restIds[i] in table - {m}
    ensures forall i :: 0 <= i < |[m] + restIds| ==> ([m] + restIds)[i] in table
    ensures RowsAt(table, [m] + restIds) == [table[m]] + RowsAt(table - {m}, restIds)
  {
    var ids := [m] + restIds;
    assert forall i :: 0 <= i < |ids| ==> ids[i] in table by {
      forall i | 0 <= i < |ids| ensures ids[i] in table {
        if i > 0 { assert ids[i] == restIds[i - 1]; }
      }
    }
    var whole := RowsAt(table, ids);
    var tail := RowsAt(table - {m}, restIds);
    forall i | 0 <= i < |whole| ensures whole[i] == ([table[m]] + tail)[i] {
      if i > 0 { assert ids[i] == restIds[i - 1]; }
    }
  }

  /** Worth depends on price and stock only. */
  lemma WorthOfSamePriceAndStock(p: Product, q: Product)
    requires p.price == q.price && p.stock == q.stock
    ensures Worth(p) == Worth(q)
  {
  }

  /** A sale of `qty` units of product `k` lowers the inventory value by `qty` units at its price. */
  lemma InventoryValueAfterSale(table: ProductTable, k: int, qty: int)
    requires k in table
    ensures InventoryValue(table[k := table[k].(stock := table[k].stock - qty)])
         == InventoryValue(table) - LineTotal(table[k], qty)
  {
    var p := table[k];
    var row := p.(stock := p.stock - qty);
    calc {
      InventoryValue(table[k := row]);
      { InventoryValueAfterWrite(table, k, row); }
      InventoryValue(table) - Worth(p) + Worth(row);
      InventoryValue(table) - LineTotal(p, qty);
    }
  }

  /** Adding `delta` to product `k`'s stock raises the inventory value by `delta` units at its price. */
  lemma InventoryValueAfterRestock(table: ProductTable, k: int, delta: int)
    requires k in table
    ensures InventoryValue(table[k := table[k].(stock := table[k].stock + delta)])
         == InventoryValue(table) + LineTotal(table[k], delta)
  {
    var p := table[k];
    var row := p.(stock := p.stock + delta);
    assert Worth(row) == Worth(p) + LineTotal(p, delta) by {
      calc {
        Worth(row);
        p.price * (p.stock as real + delta as real);
        p.price * p.stock as real + p.price * delta as real;
      }
    }
    InventoryValueAfterWrite(table, k, row);
  }

  /**
   * Writing row `k` (inserting it or replacing it) changes the total by the
   * new row's worth minus the old row's worth, if there was one.
   */
  lemma InventoryValueAfterWrite(table: ProductTable, k: int, p: Product)
    ensures InventoryValue(table[k := p])
         == InventoryValue(table) - (if k in table then Worth(table[k]) else 0.0) + Worth(p)
  {
    InventoryValueWithout(table[k := p], k);
    assert table[k := p] - {k} == table - {k};
    if k in table {
      InventoryValueWithout(table, k);
    } else {
      assert table - {k} == table;
    }
  }
}
