/** The customer routes of the backend (backend/routes/customers.js): create,
    update, delete and the list of customers who owe credit. */
module CustomerRoutes {
  import opened Base
  import opened Tables
  import opened Schema
  import Seqs

  const Ok: int := 200

  /** The body of `PUT /customers/:id`. A field the client left out is bound
      as SQL NULL. */
  datatype CustomerBody = CustomerBody(
    name: Option<string>,
    phone: Option<string>,
    email: Option<string>,
    credit: Option<Money>)

  /** A freshly created customer: no credit, no purchases, no prescriptions,
      last seen today. */
  predicate IsNewCustomer(c: Customer, name: string, phone: string, email: string, today: Day)
  {
    && c.name == name && c.phone == phone && c.email == Some(email)
    && c.credit == Some(0) && c.totalPurchases == 0 && c.prescriptions == 0
    && c.lastVisit == today
  }

  /** `POST /customers`. `email` is the body's email with a missing one
      already replaced by "", as the handler does; `id` and `today` are the
      clock-derived identifier and date. */
  function Create(t: Table<Customer>, acct: Account, name: string, phone: string, email: string,
                  today: Day, id: Id): (r: (Table<Customer>, Reply<Row<Customer>>))
    ensures r.1.Success? <==> name != "" && phone != "" && !HasId(t, id)
    ensures (name == "" || phone == "") ==> r.1 == Failure(BadRequest, "Name and phone are required")
    ensures r.1.Failure? ==> r.0 == t
    ensures r.1.Success? ==>
      && r.1.code == Created && r.1.body.id == id && r.1.body.owner == acct
      && IsNewCustomer(r.1.body.data, name, phone, email, today)
      && Lookup(r.0, id, acct) == Some(r.1.body.data)
      && |Owned(r.0, acct)| == |Owned(t, acct)| + 1
    ensures r.1.Success? && UniqueIds(t) ==> UniqueIds(r.0)
  {
    if name == "" || phone == "" then (t, Failure(BadRequest, "Name and phone are required"))
    else
      var row := Row(id, acct, Customer(name, phone, Some(email), Some(0), 0, 0, today));
      match Insert(t, row)
      case None => (t, Failure(ServerError, "Failed to add customer"))
      case Some(t') =>
        LookupInsert(t, row, id, acct);
        Seqs.FilterAppend(t, [row], (x: Row<Customer>) => x.owner == acct);
        (t', Success(Created, row))
  }

  /** `after` is `before` with exactly name, phone, email and credit taken
      from the body; purchases, prescriptions and last visit are kept. */
  predicate ReplacesColumns(before: Customer, after: Customer, body: CustomerBody)
  {
    && body.name == Some(after.name) && body.phone == Some(after.phone)
    && after.email == body.email && after.credit == body.credit
    && after.totalPurchases == before.totalPurchases
    && after.prescriptions == before.prescriptions
    && after.lastVisit == before.lastVisit
  }

  /** `PUT /customers/:id`. No matching row in the caller's account gives 404;
      a matching row with a NULL name or phone violates NOT NULL and the
      statement fails with 500, writing nothing. */
  function Update(t: Table<Customer>, acct: Account, id: Id, body: CustomerBody): (r: (Table<Customer>, Reply<string>))
    ensures !AnyMatch(t, id, acct) ==> r == (t, Failure(NotFound, "Customer not found"))
    ensures AnyMatch(t, id, acct) && (body.name.None? || body.phone.None?) ==>
      r == (t, Failure(ServerError, "Failed to update customer"))
    ensures r.1.Success? <==> AnyMatch(t, id, acct) && body.name.Some? && body.phone.Some?
    ensures r.1.Success? ==>
      Lookup(t, id, acct).Some? && Lookup(r.0, id, acct).Some? &&
      ReplacesColumns(Lookup(t, id, acct).value, Lookup(r.0, id, acct).value, body)
    ensures forall id2, acct2 :: (id2 != id || acct2 != acct) ==> Lookup(r.0, id2, acct2) == Lookup(t, id2, acct2)
    ensures UniqueIds(t) ==> UniqueIds(r.0)
  {
    if !AnyMatch(t, id, acct) then (t, Failure(NotFound, "Customer not found"))
    else if body.name.None? || body.phone.None? then (t, Failure(ServerError, "Failed to update customer"))
    else
      var f := (c: Customer) => c.(name := body.name.value, phone := body.phone.value,
                                   email := body.email, credit := body.credit);
      var t' := Modify(t, id, acct, f).0;
      LookupModify(t, id, acct, f, id, acct);
      assert forall id2, acct2 :: (id2 != id || acct2 != acct) ==> Lookup(t', id2, acct2) == Lookup(t, id2, acct2) by {
        forall id2, acct2 | id2 != id || acct2 != acct { LookupModify(t, id, acct, f, id2, acct2); }
      }
      (t', Success(Ok, "Customer updated successfully"))
  }

  /** `DELETE /customers/:id`. */
  function Remove(t: Table<Customer>, acct: Account, id: Id): (r: (Table<Customer>, Reply<string>))
    ensures r.1.Success? <==> AnyMatch(t, id, acct)
    ensures r.1.Failure? ==> r == (t, Failure(NotFound, "Customer not found"))
    ensures Lookup(r.0, id, acct) == None
    ensures forall id2, acct2 :: (id2 != id || acct2 != acct) ==> Lookup(r.0, id2, acct2) == Lookup(t, id2, acct2)
  {
    var (t', n) := Delete(t, id, acct);
    assert forall id2, acct2 ::
      Lookup(t', id2, acct2) == (if id2 == id && acct2 == acct then None else Lookup(t, id2, acct2)) by {
      forall id2, acct2 { LookupDelete(t, id, acct, id2, acct2); }
    }
    if n == 0 then
      assert t' == t by { Seqs.FilterAll(t, (row: Row<Customer>) => !Matches(row, id, acct)); }
      (t, Failure(NotFound, "Customer not found"))
    else (t', Success(Ok, "Customer deleted successfully"))
  }

  /** `credit > 0` in SQL: a NULL credit is not positive. */
  predicate OwesCredit(c: Customer)
  {
    c.credit.Some? && c.credit.value > 0
  }

  function CreditKey(row: Row<Customer>): (int, int)
  {
    (row.data.credit.GetOr(0), 0)
  }

  /** `GET /customers/with-credit`: the caller's customers whose credit is
      positive, largest credit first. */
  function WithCredit(t: Table<Customer>, acct: Account): (r: seq<Row<Customer>>)
    ensures forall i :: 0 <= i < |r| ==> r[i] in t && r[i].owner == acct && OwesCredit(r[i].data)
    ensures forall i :: 0 <= i < |t| && t[i].owner == acct && OwesCredit(t[i].data) ==> t[i] in r
    ensures multiset(r) == multiset(Seqs.Filter(t, (x: Row<Customer>) => x.owner == acct && OwesCredit(x.data)))
    ensures forall i, j :: 0 <= i < j < |r| ==> r[i].data.credit.value >= r[j].data.credit.value
  {
    Seqs.Select(t, (x: Row<Customer>) => x.owner == acct && OwesCredit(x.data), CreditKey)
  }
}
