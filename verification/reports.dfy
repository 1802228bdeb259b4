/** The report routes of the backend (backend/routes/reports.js): the
    dashboard statistics, the best-stocked medicines, the per-category stock
    value and the most recent sales. Each is a fold, filter or sort over the
    caller's rows. */
module Reports {
  import opened Base
  import opened Tables
  import opened Schema
  import Seqs
  import Groups
  import CustomerRoutes
  import SaleRoutes

  /** The number of rows `/top-medicines` returns. */
  const TopLimit: int := 10

  /** The number of rows `/recent-sales` returns when the query gives none. */
  const DefaultRecent: int := 10

  function SaleTotal(row: Row<Sale>): int { row.data.total }

  function Stock(row: Row<Medicine>): int { row.data.stock }

  /** `stock * price` of one inventory row. */
  function Value(row: Row<Medicine>): int { row.data.stock * row.data.price }

  function Credit(row: Row<Customer>): int { row.data.credit.GetOr(0) }

  /** `WHERE user_id = ? AND credit > 0` */
  function Owing(acct: Account): Row<Customer> -> bool
  {
    (row: Row<Customer>) => row.owner == acct && CustomerRoutes.OwesCredit(row.data)
  }

  /** The reply of `GET /reports/stats`. */
  datatype Stats = Stats(
    totalRevenue: Money,
    totalSales: nat,
    productsSold: int,
    totalCustomers: nat,
    outstandingCredit: Money,
    stockValue: Money)

  /** `SUM(total)` over the caller's sales; `|| 0` turns the NULL of an empty
      sum into 0, which is what an empty fold gives. */
  function Revenue(sales: Table<Sale>, acct: Account): Money
  {
    Seqs.Sum(Owned(sales, acct), SaleTotal)
  }

  /** `SUM(credit) ... WHERE credit > 0`. */
  function OutstandingCredit(customers: Table<Customer>, acct: Account): Money
  {
    Seqs.Sum(Seqs.Filter(customers, Owing(acct)), Credit)
  }

  /** `SUM(stock * price)` over the caller's inventory. */
  function StockValue(inventory: Table<Medicine>, acct: Account): Money
  {
    Seqs.Sum(Owned(inventory, acct), Value)
  }

  /** `GET /reports/stats`: six aggregates over the caller's rows only. */
  function GetStats(db: Db, acct: Account): (r: Stats)
    ensures r.totalSales == |Owned(db.sales, acct)| && r.totalCustomers == |Owned(db.customers, acct)|
    ensures r.totalSales == 0 ==> r.totalRevenue == 0
    ensures r.outstandingCredit >= 0
    ensures r.outstandingCredit == 0 <==>
      forall i :: 0 <= i < |db.customers| && db.customers[i].owner == acct ==> !CustomerRoutes.OwesCredit(db.customers[i].data)
    ensures (forall i :: 0 <= i < |db.inventory| ==> db.inventory[i].data.stock >= 0) ==> r.productsSold >= 0
  {
    var owing := Seqs.Filter(db.customers, Owing(acct));
    Seqs.FilterMembers(db.customers, Owing(acct));
    StockNonNegative(db.inventory, acct);
    PositiveSum(owing, Credit);
    assert owing == [] <==>
      forall i :: 0 <= i < |db.customers| && db.customers[i].owner == acct ==> !CustomerRoutes.OwesCredit(db.customers[i].data)
    by {
      if owing != [] { assert owing[0] in owing; }
    }
    Stats(
      Revenue(db.sales, acct),
      |Owned(db.sales, acct)|,
      Seqs.Sum(Owned(db.inventory, acct), Stock),
      |Owned(db.customers, acct)|,
      OutstandingCredit(db.customers, acct),
      StockValue(db.inventory, acct))
  }

  lemma {:induction false} StockNonNegative(t: Table<Medicine>, acct: Account)
    ensures (forall i :: 0 <= i < |t| ==> t[i].data.stock >= 0) ==> Seqs.Sum(Owned(t, acct), Stock) >= 0
  {
    if forall i :: 0 <= i < |t| ==> t[i].data.stock >= 0 {
      var owned := Owned(t, acct);
      forall i | 0 <= i < |owned| ensures Stock(owned[i]) >= 0 {
        var k :| 0 <= k < |t| && t[k] == owned[i];
      }
      Seqs.SumNonNegative(owned, Stock);
    }
  }

  /** A sum of positive terms is positive exactly when there is a term. */
  lemma {:induction false} PositiveSum<T>(s: seq<T>, f: T -> int)
    requires forall i :: 0 <= i < |s| ==> f(s[i]) > 0
    ensures Seqs.Sum(s, f) >= 0
    ensures Seqs.Sum(s, f) == 0 <==> s == []
  {
    if |s| > 0 {
      PositiveSum(s[1..], f);
    }
  }

  /** A recorded sale adds its total to the revenue and one to the count of
      the caller's account, leaves the inventory figures alone, and changes
      nothing in any other account's revenue. */
  lemma {:induction false} StatsAfterSale(db: Db, acct: Account, req: SaleRoutes.SaleRequest, today: Day, stamp: int, id: Id, other: Account)
    requires SaleRoutes.Create(db, acct, req, today, stamp, id).1.Success?
    requires other != acct
    ensures var db' := SaleRoutes.Create(db, acct, req, today, stamp, id).0;
      && Revenue(db'.sales, acct) == Revenue(db.sales, acct) + req.total.v
      && |Owned(db'.sales, acct)| == |Owned(db.sales, acct)| + 1
      && StockValue(db'.inventory, acct) == StockValue(db.inventory, acct)
      && Revenue(db'.sales, other) == Revenue(db.sales, other)
  {
    var (db', reply) := SaleRoutes.Create(db, acct, req, today, stamp, id);
    var row := reply.body;
    Seqs.FilterAppend(db.sales, [row], OwnedBy(acct));
    Seqs.FilterAppend(db.sales, [row], OwnedBy(other));
    Seqs.SumAppend(Owned(db.sales, acct), [row], SaleTotal);
    assert Owned([row], acct) == [row];
    assert Owned([row], other) == [];
    assert Owned(db.sales, other) + [] == Owned(db.sales, other);
    assert Seqs.Sum([row], SaleTotal) == req.total.v;
  }

  /** Deleting a sale takes exactly its total off the revenue and one off the
      count. There is no reversal: stock, purchases and credit, and so the
      products, stock-value and outstanding-credit figures, stay as they were. */
  lemma {:induction false} StatsAfterSaleRemoved(db: Db, acct: Account, id: Id, sale: Sale)
    requires WellFormed(db) && Lookup(db.sales, id, acct) == Some(sale)
    ensures var db' := SaleRoutes.Remove(db, acct, id).0;
      && Revenue(db'.sales, acct) == Revenue(db.sales, acct) - sale.total
      && |Owned(db'.sales, acct)| == |Owned(db.sales, acct)| - 1
      && OutstandingCredit(db'.customers, acct) == OutstandingCredit(db.customers, acct)
      && StockValue(db'.inventory, acct) == StockValue(db.inventory, acct)
  {
    var t := db.sales;
    var k :| 0 <= k < |t| && Matches(t[k], id, acct) && t[k].data == sale;
    assert SaleRoutes.Remove(db, acct, id).0.sales == t[..k] + t[k+1..] by {
      DeleteUnique(t, id, acct, k);
    }
    Seqs.FilterSplice(t, k, OwnedBy(acct), SaleTotal);
  }

  /** The columns `/top-medicines` selects. */
  datatype MedicineSummary = MedicineSummary(name: string, category: string, stock: int, price: Money)

  function Summary(row: Row<Medicine>): MedicineSummary
  {
    MedicineSummary(row.data.name, row.data.category, row.data.stock, row.data.price)
  }

  function StockKey(row: Row<Medicine>): (int, int) { (row.data.stock, 0) }

  /** The rows `/top-medicines` reports on: the caller's medicines by stock,
      highest first, at most ten. */
  function TopRows(inventory: Table<Medicine>, acct: Account): (r: seq<Row<Medicine>>)
    ensures |r| == if |Owned(inventory, acct)| < TopLimit then |Owned(inventory, acct)| else TopLimit
    ensures forall i :: 0 <= i < |r| ==> r[i] in inventory && r[i].owner == acct
    ensures forall i, j :: 0 <= i < j < |r| ==> r[i].data.stock >= r[j].data.stock
    ensures multiset(r) <= multiset(Owned(inventory, acct))
  {
    ByStock(inventory, acct);
    Seqs.Take(Seqs.Select(inventory, OwnedBy(acct), StockKey), TopLimit)
  }

  /** The caller's medicines ordered by stock: as many as they own, the same
      rows, highest stock first. */
  lemma {:induction false} ByStock(inventory: Table<Medicine>, acct: Account)
    ensures var sorted := Seqs.Select(inventory, OwnedBy(acct), StockKey);
      && |sorted| == |Owned(inventory, acct)|
      && multiset(sorted) == multiset(Owned(inventory, acct))
      && forall i, j :: 0 <= i < j < |sorted| ==> sorted[i].data.stock >= sorted[j].data.stock
  {
    var sorted := Seqs.Select(inventory, OwnedBy(acct), StockKey);
    assert |sorted| == |Owned(inventory, acct)| by {
      assert |multiset(sorted)| == |multiset(Owned(inventory, acct))|;
    }
    forall i, j | 0 <= i < j < |sorted| ensures sorted[i].data.stock >= sorted[j].data.stock {
      assert Seqs.KeyGe(StockKey(sorted[i]), StockKey(sorted[j]));
    }
  }

  /** `GET /reports/top-medicines`. */
  function TopMedicines(inventory: Table<Medicine>, acct: Account): (r: seq<MedicineSummary>)
    ensures |r| <= TopLimit
    ensures forall i, j :: 0 <= i < j < |r| ==> r[i].stock >= r[j].stock
    ensures forall i :: 0 <= i < |r| ==> exists k :: 0 <= k < |inventory| && inventory[k].owner == acct && r[i] == Summary(inventory[k])
    ensures |r| == |TopRows(inventory, acct)|
    ensures forall i :: 0 <= i < |r| ==> r[i] == Summary(TopRows(inventory, acct)[i])
  {
    var rows := TopRows(inventory, acct);
    var r := Summaries(rows);
    assert forall i :: 0 <= i < |r| ==> exists k :: 0 <= k < |inventory| && inventory[k].owner == acct && r[i] == Summary(inventory[k]) by {
      forall i | 0 <= i < |r| {
        SummaryOfOwned(inventory, acct, rows[i], r[i]);
      }
    }
    r
  }

  function Summaries(rows: seq<Row<Medicine>>): (r: seq<MedicineSummary>)
    ensures |r| == |rows| && forall i :: 0 <= i < |r| ==> r[i] == Summary(rows[i])
  {
    seq(|rows|, i requires 0 <= i < |rows| => Summary(rows[i]))
  }

  /** The summary of one of the caller's rows is the summary of a row of
      their inventory. */
  lemma {:induction false} SummaryOfOwned(inventory: Table<Medicine>, acct: Account, x: Row<Medicine>, s: MedicineSummary)
    requires x in inventory && x.owner == acct && s == Summary(x)
    ensures exists k :: 0 <= k < |inventory| && inventory[k].owner == acct && s == Summary(inventory[k])
  {
    var k :| 0 <= k < |inventory| && inventory[k] == x;
    assert inventory[k].owner == acct && s == Summary(inventory[k]);
  }

  /** `ORDER BY stock DESC LIMIT 10` keeps the best-stocked medicines: one of
      the caller's medicines is left out only when ten are listed and the
      last of them has at least its stock. */
  lemma {:induction false} TopMedicinesAreTop(inventory: Table<Medicine>, acct: Account, m: Row<Medicine>)
    requires m in inventory && m.owner == acct && m !in TopRows(inventory, acct)
    ensures var r := TopRows(inventory, acct);
      |r| == TopLimit && r[TopLimit - 1].data.stock >= m.data.stock
  {
    var sorted := Seqs.Select(inventory, OwnedBy(acct), StockKey);
    var k :| 0 <= k < |inventory| && inventory[k] == m;
    assert m in Owned(inventory, acct);
    assert m in sorted;
    Seqs.TopRows(Seqs.Filter(inventory, OwnedBy(acct)), StockKey, TopLimit, m);
  }

  /** One row of `/sales-by-category`. */
  datatype CategoryStat = CategoryStat(category: string, count: nat, total: Money)

  function Category(row: Row<Medicine>): string { row.data.category }

  /** `COUNT(*)` and `SUM(stock * price)` over one category's rows. */
  function Group(owned: seq<Row<Medicine>>, c: string): CategoryStat
  {
    var rows := Seqs.Filter(owned, Groups.HasKey(Category, c));
    CategoryStat(c, |rows|, Seqs.Sum(rows, Value))
  }

  /** One `Group` per category, in the order given. */
  function GroupAll(owned: seq<Row<Medicine>>, cs: seq<string>): (r: seq<CategoryStat>)
    ensures |r| == |cs|
    ensures forall i :: 0 <= i < |r| ==> r[i] == Group(owned, cs[i])
  {
    if |cs| == 0 then [] else [Group(owned, cs[0])] + GroupAll(owned, cs[1..])
  }

  function TotalKey(s: CategoryStat): (int, int) { (s.total, 0) }

  function StatTotal(s: CategoryStat): int { s.total }

  function StatCount(s: CategoryStat): int { s.count }

  /** A listed category row is the group of a category that occurs. */
  predicate Grouped(owned: seq<Row<Medicine>>, s: CategoryStat)
  {
    s == Group(owned, s.category) && s.count > 0
  }

  /** Every key found in `owned` has a non-empty group. */
  lemma {:induction false} GroupsNonEmpty(owned: seq<Row<Medicine>>, cs: seq<string>)
    requires forall c :: c in cs ==> exists k :: 0 <= k < |owned| && Category(owned[k]) == c
    ensures forall j :: 0 <= j < |GroupAll(owned, cs)| ==> Grouped(owned, GroupAll(owned, cs)[j])
  {
    var groups := GroupAll(owned, cs);
    forall j | 0 <= j < |groups| ensures Grouped(owned, groups[j]) {
      assert cs[j] in cs;
      var k :| 0 <= k < |owned| && Category(owned[k]) == cs[j];
      assert Groups.HasKey(Category, cs[j])(owned[k]);
      Seqs.FilterMembers(owned, Groups.HasKey(Category, cs[j]));
      assert owned[k] in Seqs.Filter(owned, Groups.HasKey(Category, cs[j]));
    }
  }

  /** What holds of every element holds of every element of a reordering. */
  lemma {:induction false} PermutationKeeps(a: seq<CategoryStat>, b: seq<CategoryStat>, owned: seq<Row<Medicine>>)
    requires multiset(a) == multiset(b)
    requires forall j :: 0 <= j < |a| ==> Grouped(owned, a[j])
    ensures forall i :: 0 <= i < |b| ==> Grouped(owned, b[i])
  {
    forall i | 0 <= i < |b| ensures Grouped(owned, b[i]) {
      assert b[i] in multiset(a);
    }
  }

  /** The row of every category of the caller's inventory is listed. */
  lemma {:induction false} EveryCategoryListed(owned: seq<Row<Medicine>>, cs: seq<string>, r: seq<CategoryStat>, c: string)
    requires c in cs && multiset(r) == multiset(GroupAll(owned, cs))
    ensures Group(owned, c) in r
  {
    var j :| 0 <= j < |cs| && cs[j] == c;
    assert GroupAll(owned, cs)[j] in multiset(r);
  }

  /** The category rows, before they are ordered. */
  function CategoryGroups(owned: seq<Row<Medicine>>): seq<CategoryStat>
  {
    GroupAll(owned, Groups.Keys(owned, Category))
  }

  /** Every listed row is the group of an occurring category, and the
      group of every occurring category is listed. */
  lemma {:induction false} CategoryRowsExact(owned: seq<Row<Medicine>>, r: seq<CategoryStat>)
    requires multiset(r) == multiset(CategoryGroups(owned))
    ensures forall i :: 0 <= i < |r| ==> Grouped(owned, r[i])
    ensures forall k :: 0 <= k < |owned| ==> Group(owned, owned[k].data.category) in r
  {
    var cs := Groups.Keys(owned, Category);
    GroupsNonEmpty(owned, cs);
    PermutationKeeps(CategoryGroups(owned), r, owned);
    forall k | 0 <= k < |owned| ensures Group(owned, owned[k].data.category) in r {
      assert Category(owned[k]) in cs;
      EveryCategoryListed(owned, cs, r, owned[k].data.category);
    }
  }

  /** No category is listed twice. */
  lemma {:induction false} CategoryRowsDistinct(owned: seq<Row<Medicine>>, r: seq<CategoryStat>)
    requires multiset(r) == multiset(CategoryGroups(owned))
    ensures Groups.DistinctBy(r, StatCategory)
  {
    var groups := CategoryGroups(owned);
    assert Groups.DistinctBy(groups, StatCategory);
    Groups.DistinctByPermutation(groups, r, StatCategory);
  }

  lemma {:induction false} TotalsDescending(r: seq<CategoryStat>)
    requires Seqs.SortedDesc(r, TotalKey)
    ensures forall i, j :: 0 <= i < j < |r| ==> r[i].total >= r[j].total
  {
    forall i, j | 0 <= i < j < |r| ensures r[i].total >= r[j].total {
      assert Seqs.KeyGe(TotalKey(r[i]), TotalKey(r[j]));
    }
  }

  /** The four facts `SalesByCategory` promises, about the ordered groups. */
  lemma {:induction false} CategoryListing(inventory: Table<Medicine>, acct: Account, r: seq<CategoryStat>)
    requires r == Seqs.SortDesc(CategoryGroups(Owned(inventory, acct)), TotalKey)
    ensures forall i :: 0 <= i < |r| ==> r[i] == Group(Owned(inventory, acct), r[i].category) && r[i].count > 0
    ensures forall i :: 0 <= i < |inventory| && inventory[i].owner == acct ==>
      Group(Owned(inventory, acct), inventory[i].data.category) in r
    ensures forall i, j :: 0 <= i < j < |r| ==> r[i].category != r[j].category
    ensures forall i, j :: 0 <= i < j < |r| ==> r[i].total >= r[j].total
  {
    var owned := Owned(inventory, acct);
    CategoryRowsExact(owned, r);
    CategoryRowsDistinct(owned, r);
    forall i | 0 <= i < |inventory| && inventory[i].owner == acct ensures Group(owned, inventory[i].data.category) in r {
      var k :| 0 <= k < |owned| && owned[k] == inventory[i];
    }
    forall i, j | 0 <= i < j < |r| ensures r[i].category != r[j].category {
      assert StatCategory(r[i]) != StatCategory(r[j]);
    }
    TotalsDescending(r);
  }

  /** `GET /reports/sales-by-category`: one row per category of the caller's
      inventory, each with its row count and stock value, largest value first. */
  function SalesByCategory(inventory: Table<Medicine>, acct: Account): (r: seq<CategoryStat>)
    ensures forall i :: 0 <= i < |r| ==> r[i] == Group(Owned(inventory, acct), r[i].category) && r[i].count > 0
    ensures forall i :: 0 <= i < |inventory| && inventory[i].owner == acct ==>
      Group(Owned(inventory, acct), inventory[i].data.category) in r
    ensures forall i, j :: 0 <= i < j < |r| ==> r[i].category != r[j].category
    ensures forall i, j :: 0 <= i < j < |r| ==> r[i].total >= r[j].total
  {
    var r := Seqs.SortDesc(CategoryGroups(Owned(inventory, acct)), TotalKey);
    CategoryListing(inventory, acct, r);
    r
  }

  function StatCategory(s: CategoryStat): string { s.category }

  /** Summing a grouping back up. */
  lemma {:induction false} GroupAllSums(owned: seq<Row<Medicine>>, cs: seq<string>)
    ensures Seqs.Sum(GroupAll(owned, cs), StatTotal) == Groups.GroupSum(cs, owned, Category, Value)
    ensures Seqs.Sum(GroupAll(owned, cs), StatCount) == Groups.GroupSum(cs, owned, Category, One)
  {
    if |cs| > 0 {
      GroupAllSums(owned, cs[1..]);
      CountIsSum(Seqs.Filter(owned, Groups.HasKey(Category, cs[0])));
      assert GroupAll(owned, cs)[1..] == GroupAll(owned, cs[1..]);
    }
  }

  function One(row: Row<Medicine>): int { 1 }

  lemma {:induction false} CountIsSum(s: seq<Row<Medicine>>)
    ensures Seqs.Sum(s, One) == |s|
  {
    if |s| > 0 {
      CountIsSum(s[1..]);
    }
  }

  /** The category rows partition the inventory: their counts add up to the
      number of the caller's medicines and their totals to `stockValue`. */
  lemma {:induction false} CategoriesPartitionStock(inventory: Table<Medicine>, acct: Account)
    ensures var r := SalesByCategory(inventory, acct);
      && Seqs.Sum(r, StatTotal) == StockValue(inventory, acct)
      && Seqs.Sum(r, StatCount) == |Owned(inventory, acct)|
  {
    var owned := Owned(inventory, acct);
    var cs := Groups.Keys(owned, Category);
    var groups := GroupAll(owned, cs);
    var r := SalesByCategory(inventory, acct);
    assert r == Seqs.SortDesc(CategoryGroups(owned), TotalKey);
    Seqs.SumPermutation(groups, r, StatTotal);
    Seqs.SumPermutation(groups, r, StatCount);
    GroupAllSums(owned, cs);
    Groups.PartitionSum(cs, owned, Category, Value);
    Groups.PartitionSum(cs, owned, Category, One);
    CountIsSum(owned);
  }

  /** `ORDER BY date DESC, created_at DESC`. */
  function RecentKey(row: Row<Sale>): (int, int) { (row.data.date, row.data.createdAt) }

  /** `GET /reports/recent-sales?limit=n`: the caller's sales, newest first,
      at most `limit` of them (10 when the query gives none; a negative limit
      is no limit in SQLite). */
  function RecentSales(sales: Table<Sale>, acct: Account, limit: Option<int>): (r: seq<Row<Sale>>)
    ensures forall i :: 0 <= i < |r| ==> r[i] in sales && r[i].owner == acct
    ensures limit.GetOr(DefaultRecent) >= 0 ==> |r| == if |Owned(sales, acct)| < limit.GetOr(DefaultRecent) then |Owned(sales, acct)| else limit.GetOr(DefaultRecent)
    ensures limit.GetOr(DefaultRecent) < 0 ==> |r| == |Owned(sales, acct)|
    ensures Seqs.SortedDesc(r, RecentKey)
    ensures multiset(r) <= multiset(Owned(sales, acct))
  {
    var sorted := Seqs.Select(sales, OwnedBy(acct), RecentKey);
    Seqs.FilterMultiset(sales, OwnedBy(acct));
    assert |sorted| == |Owned(sales, acct)| by {
      assert |multiset(sorted)| == |multiset(Owned(sales, acct))|;
    }
    Seqs.Take(sorted, limit.GetOr(DefaultRecent))
  }

  /** The listing holds the newest sales: under a non-zero limit, one of the
      caller's sales is left out only when the limit is reached and the last one listed is at least
      as recent by (date, created_at). */
  lemma {:induction false} RecentSalesAreNewest(sales: Table<Sale>, acct: Account, limit: Option<int>, s: Row<Sale>)
    requires limit.GetOr(DefaultRecent) != 0
    requires s in sales && s.owner == acct && s !in RecentSales(sales, acct, limit)
    ensures var r := RecentSales(sales, acct, limit);
      0 < |r| && Seqs.KeyGe(RecentKey(r[|r| - 1]), RecentKey(s))
  {
    var n := limit.GetOr(DefaultRecent);
    var sorted := Seqs.Select(sales, OwnedBy(acct), RecentKey);
    assert s in Owned(sales, acct);
    Seqs.TopRows(Seqs.Filter(sales, OwnedBy(acct)), RecentKey, n, s);
  }
}
