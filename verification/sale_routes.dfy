/** The sale routes of the backend (backend/routes/sales.js): recording a
    sale together with its effect on the customer's balances, deleting a
    sale, and the date-range listing. */
module SaleRoutes {
  import opened Base
  import opened Tables
  import opened Schema
  import Seqs

  const Ok: int := 200

  /** The payment method whose amount is added to the customer's credit. */
  const CreditMethod: string := "Credit"

  /** The body of `POST /sales`; a missing text field is "". */
  datatype SaleRequest = SaleRequest(
    customerId: Id,
    customerName: string,
    items: string,
    total: Num,
    paymentMethod: string)

  /** The handler's `!customer_id || !customer_name || !items || !total || !payment_method`. */
  predicate AnyFieldFalsy(req: SaleRequest)
  {
    req.customerId == "" || req.customerName == "" || req.items == ""
    || req.total.Falsy() || req.paymentMethod == ""
  }

  /** SQL `credit + ?`: NULL plus anything stays NULL. */
  function AddCredit(credit: Option<Money>, amount: Money): Option<Money>
  {
    match credit
    case None => None
    case Some(c) => Some(c + amount)
  }

  /** The first UPDATE: last visit and running purchase total. */
  function Visit(c: Customer, total: Money, today: Day): Customer
  {
    c.(lastVisit := today, totalPurchases := c.totalPurchases + total)
  }

  /** The second UPDATE, issued only for credit sales. */
  function Owe(c: Customer, total: Money): Customer
  {
    c.(credit := AddCredit(c.credit, total))
  }

  /** What a recorded sale does to the buyer's row: purchases grow by the
      total, the last visit becomes the sale date, credit grows by the total
      exactly for a credit sale; name, phone, email and prescriptions stay. */
  predicate Charged(before: Customer, after: Customer, total: Money, pay: string, today: Day)
  {
    && after.totalPurchases == before.totalPurchases + total
    && after.lastVisit == today
    && after.credit == (if pay == CreditMethod then AddCredit(before.credit, total) else before.credit)
    && after.name == before.name && after.phone == before.phone
    && after.email == before.email && after.prescriptions == before.prescriptions
  }

  /** The two customer UPDATEs that follow a recorded sale, both scoped to
      `WHERE id = ? AND user_id = ?`; the second one runs only for a credit
      sale. A customer id that is not one of the caller's customers matches
      nothing and changes nothing. */
  function ChargeCustomer(t: Table<Customer>, acct: Account, cid: Id, total: Money, pay: string, today: Day): (r: Table<Customer>)
    ensures Lookup(t, cid, acct).None? ==> r == t
    ensures Lookup(t, cid, acct).Some? ==>
      Lookup(r, cid, acct).Some? && Charged(Lookup(t, cid, acct).value, Lookup(r, cid, acct).value, total, pay, today)
    ensures forall id2, acct2 :: (id2 != cid || acct2 != acct) ==> Lookup(r, id2, acct2) == Lookup(t, id2, acct2)
    ensures UniqueIds(t) ==> UniqueIds(r)
  {
    var visit := (c: Customer) => Visit(c, total, today);
    var owe := (c: Customer) => Owe(c, total);
    var c1 := Modify(t, cid, acct, visit).0;
    var c2 := if pay == CreditMethod then Modify(c1, cid, acct, owe).0 else c1;
    LookupModify(t, cid, acct, visit, cid, acct);
    LookupModify(c1, cid, acct, owe, cid, acct);
    if !AnyMatch(t, cid, acct) then
      ModifyUnmatched(t, cid, acct, visit);
      ModifyUnmatched(c1, cid, acct, owe);
      c2
    else
      assert forall id2, acct2 :: (id2 != cid || acct2 != acct) ==>
        Lookup(c2, id2, acct2) == Lookup(t, id2, acct2) by {
        forall id2, acct2 | id2 != cid || acct2 != acct
          ensures Lookup(c2, id2, acct2) == Lookup(t, id2, acct2)
        {
          LookupModify(t, cid, acct, visit, id2, acct2);
          LookupModify(c1, cid, acct, owe, id2, acct2);
        }
      }
      c2
  }

  /** `POST /sales`. The supplied total is trusted as is; `id`, `today` and
      `stamp` (the row's `created_at`) come from the clock. The sale row is
      inserted first and the buyer's balances are updated after it. */
  function Create(db: Db, acct: Account, req: SaleRequest, today: Day, stamp: int, id: Id): (r: (Db, Reply<Row<Sale>>))
    ensures AnyFieldFalsy(req) ==> r == (db, Failure(BadRequest, "All fields are required"))
    ensures r.1.Success? <==> !AnyFieldFalsy(req) && !HasId(db.sales, id)
    ensures r.1.Failure? ==> r.0 == db
    ensures r.0.inventory == db.inventory
    ensures r.1.Success? ==>
      && r.1.code == Created
      && r.1.body == Row(id, acct, Sale(req.customerId, req.customerName, req.items, req.total.v,
                                        req.paymentMethod, today, stamp))
      && r.0.sales == db.sales + [r.1.body]
      && r.0.customers == ChargeCustomer(db.customers, acct, req.customerId, req.total.v, req.paymentMethod, today)
    ensures WellFormed(db) ==> WellFormed(r.0)
  {
    if AnyFieldFalsy(req) then (db, Failure(BadRequest, "All fields are required"))
    else
      var row := Row(id, acct, Sale(req.customerId, req.customerName, req.items, req.total.v,
                                    req.paymentMethod, today, stamp));
      match Insert(db.sales, row)
      case None => (db, Failure(ServerError, "Failed to add sale"))
      case Some(sales') =>
        var customers' := ChargeCustomer(db.customers, acct, req.customerId, req.total.v, req.paymentMethod, today);
        (Db(db.inventory, customers', sales'), Success(Created, row))
  }

  /** `DELETE /sales/:id`: removes the caller's sale row and nothing else.
      Stock taken by the sale is not restored and the buyer's balances are
      not reversed. */
  function Remove(db: Db, acct: Account, id: Id): (r: (Db, Reply<string>))
    ensures r.1.Success? <==> AnyMatch(db.sales, id, acct)
    ensures r.1.Failure? ==> r == (db, Failure(NotFound, "Sale not found"))
    ensures r.0.inventory == db.inventory && r.0.customers == db.customers
    ensures Lookup(r.0.sales, id, acct) == None
    ensures forall id2, acct2 :: (id2 != id || acct2 != acct) ==> Lookup(r.0.sales, id2, acct2) == Lookup(db.sales, id2, acct2)
  {
    var (sales', n) := Delete(db.sales, id, acct);
    assert forall id2, acct2 ::
      Lookup(sales', id2, acct2) == (if id2 == id && acct2 == acct then None else Lookup(db.sales, id2, acct2)) by {
      forall id2, acct2 { LookupDelete(db.sales, id, acct, id2, acct2); }
    }
    if n == 0 then
      assert sales' == db.sales by { Seqs.FilterAll(db.sales, (row: Row<Sale>) => !Matches(row, id, acct)); }
      (db, Failure(NotFound, "Sale not found"))
    else (db.(sales := sales'), Success(Ok, "Sale deleted successfully"))
  }

  function DateKey(row: Row<Sale>): (int, int)
  {
    (row.data.date, 0)
  }

  predicate InRange(row: Row<Sale>, acct: Account, start: Day, end: Day)
  {
    row.owner == acct && start <= row.data.date <= end
  }

  /** `GET /sales/range?start=…&end=…`: both bounds are required; the result
      is the caller's sales dated from `start` to `end` inclusive, newest
      first. */
  function Range(sales: Table<Sale>, acct: Account, start: Option<Day>, end: Option<Day>): (r: Reply<seq<Row<Sale>>>)
    ensures r.Failure? <==> start.None? || end.None?
    ensures r.Failure? ==> r == Failure(BadRequest, "Start and end dates are required")
    ensures r.Success? ==>
      && (forall i :: 0 <= i < |r.body| ==> r.body[i] in sales && InRange(r.body[i], acct, start.value, end.value))
      && (forall i :: 0 <= i < |sales| && InRange(sales[i], acct, start.value, end.value) ==> sales[i] in r.body)
      && (forall i, j :: 0 <= i < j < |r.body| ==> r.body[i].data.date >= r.body[j].data.date)
      && multiset(r.body) <= multiset(sales)
  {
    if start.None? || end.None? then Failure(BadRequest, "Start and end dates are required")
    else
      Success(Ok, Seqs.Select(sales, (x: Row<Sale>) => InRange(x, acct, start.value, end.value), DateKey))
  }

  /** The credit rule in both directions: for a buyer whose credit is not
      NULL, a recorded sale raises credit by exactly the total when the
      method is "Credit" and leaves it alone otherwise; so a non-zero total
      changes credit if and only if the method is "Credit". */
  lemma {:induction false} CreditIffCreditMethod(t: Table<Customer>, acct: Account, cid: Id, total: Money, pay: string, today: Day,
                              buyer: Customer, before: Money)
    requires Lookup(t, cid, acct) == Some(buyer) && buyer.credit == Some(before)
    ensures
      var after := Lookup(ChargeCustomer(t, acct, cid, total, pay, today), cid, acct);
      && after.Some? && after.value.credit.Some?
      && after.value.credit.value == (if pay == CreditMethod then before + total else before)
      && (total != 0 ==> (after.value.credit.value != before <==> pay == CreditMethod))
  {
    var after := Lookup(ChargeCustomer(t, acct, cid, total, pay, today), cid, acct);
    ChargedCredit(buyer, after.value, total, pay, today, before);
  }

  lemma {:induction false} ChargedCredit(buyer: Customer, after: Customer, total: Money, pay: string, today: Day, before: Money)
    requires Charged(buyer, after, total, pay, today) && buyer.credit == Some(before)
    ensures after.credit.Some?
    ensures after.credit.value == (if pay == CreditMethod then before + total else before)
  {
  }
}
