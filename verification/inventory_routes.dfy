/** The inventory routes of the backend (backend/routes/inventory.js): add,
    update and delete a medicine, and the low-stock listing. */
module InventoryRoutes {
  import opened Base
  import opened Tables
  import opened Schema
  import Seqs

  const Ok: int := 200

  /** The stock threshold `GET /inventory/low-stock` uses when the query gives none. */
  const DefaultLowStock: int := 150

  /** The body of `POST /inventory`. A missing text field is "" and a missing
      expiry is `None`; both are falsy. */
  datatype MedicineForm = MedicineForm(
    name: string,
    category: string,
    stock: Num,
    price: Num,
    expiry: Option<Day>,
    supplier: string)

  /** The handler's `!name || !category || !stock || !price || !expiry || !supplier`. */
  predicate AnyFieldFalsy(f: MedicineForm)
  {
    f.name == "" || f.category == "" || f.stock.Falsy() || f.price.Falsy()
    || f.expiry.None? || f.supplier == ""
  }

  /** The row the INSERT writes: the six fields as given. */
  function FormRow(f: MedicineForm): Medicine
    requires !AnyFieldFalsy(f)
  {
    Medicine(f.name, f.category, f.stock.v, f.price.v, f.expiry.value, f.supplier)
  }

  /** `POST /inventory`; `id` is the clock-derived identifier. */
  function Create(t: Table<Medicine>, acct: Account, form: MedicineForm, id: Id): (r: (Table<Medicine>, Reply<Row<Medicine>>))
    ensures AnyFieldFalsy(form) ==> r == (t, Failure(BadRequest, "All fields are required"))
    ensures r.1.Success? <==> !AnyFieldFalsy(form) && !HasId(t, id)
    ensures r.1.Failure? ==> r.0 == t
    ensures r.1.Success? ==>
      && r.1.code == Created && r.1.body == Row(id, acct, r.1.body.data)
      && var m := r.1.body.data;
      && m.name == form.name && m.category == form.category
      && Some(m.stock) == form.stock.Stored() && Some(m.price) == form.price.Stored()
      && Some(m.expiry) == form.expiry && m.supplier == form.supplier
      && Lookup(r.0, id, acct) == Some(m)
      && (forall id2, acct2 :: (id2 != id || acct2 != acct) ==> Lookup(r.0, id2, acct2) == Lookup(t, id2, acct2))
    ensures r.1.Success? && UniqueIds(t) ==> UniqueIds(r.0)
  {
    if AnyFieldFalsy(form) then (t, Failure(BadRequest, "All fields are required"))
    else
      var row := Row(id, acct, FormRow(form));
      match Insert(t, row)
      case None => (t, Failure(ServerError, "Failed to add medicine"))
      case Some(t') =>
        assert forall id2, acct2 ::
          Lookup(t', id2, acct2) == (if id2 == id && acct2 == acct then Some(row.data) else Lookup(t, id2, acct2)) by {
          forall id2, acct2 { LookupInsert(t, row, id2, acct2); }
        }
        (t', Success(Created, row))
  }

  /** The body of `PUT /inventory/:id`; a field left out is bound as NULL. */
  datatype MedicineBody = MedicineBody(
    name: Option<string>,
    category: Option<string>,
    stock: Num,
    price: Num,
    expiry: Option<Day>,
    supplier: Option<string>)

  /** All six columns are NOT NULL, so the body must carry every one of them. */
  predicate NoNulls(b: MedicineBody)
  {
    b.name.Some? && b.category.Some? && !b.stock.Absent? && !b.price.Absent?
    && b.expiry.Some? && b.supplier.Some?
  }

  /** The complete body for a given row: what the frontend sends when it
      spreads a fetched row into the request. */
  function BodyOf(m: Medicine): (b: MedicineBody)
    ensures NoNulls(b) && Carries(m, b)
  {
    MedicineBody(Some(m.name), Some(m.category), Number(m.stock), Number(m.price), Some(m.expiry), Some(m.supplier))
  }

  /** Every one of the six columns of `m` holds the body's value. */
  predicate Carries(m: Medicine, b: MedicineBody)
  {
    && b.name == Some(m.name) && b.category == Some(m.category)
    && b.stock.Stored() == Some(m.stock) && b.price.Stored() == Some(m.price)
    && b.expiry == Some(m.expiry) && b.supplier == Some(m.supplier)
  }

  /** `PUT /inventory/:id`: replaces all six columns of the caller's row.
      404 when no row matches; a NULL in a NOT NULL column fails with 500
      and writes nothing. */
  function Update(t: Table<Medicine>, acct: Account, id: Id, body: MedicineBody): (r: (Table<Medicine>, Reply<string>))
    ensures !AnyMatch(t, id, acct) ==> r == (t, Failure(NotFound, "Medicine not found"))
    ensures AnyMatch(t, id, acct) && !NoNulls(body) ==> r == (t, Failure(ServerError, "Failed to update medicine"))
    ensures r.1.Success? <==> AnyMatch(t, id, acct) && NoNulls(body)
    ensures r.1.Success? ==>
      && Lookup(r.0, id, acct).Some?
      && Carries(Lookup(r.0, id, acct).value, body)
    ensures forall id2, acct2 :: (id2 != id || acct2 != acct) ==> Lookup(r.0, id2, acct2) == Lookup(t, id2, acct2)
    ensures |r.0| == |t| && (UniqueIds(t) ==> UniqueIds(r.0))
  {
    if !AnyMatch(t, id, acct) then (t, Failure(NotFound, "Medicine not found"))
    else if !NoNulls(body) then (t, Failure(ServerError, "Failed to update medicine"))
    else
      var m := Medicine(body.name.value, body.category.value, body.stock.v, body.price.v,
                        body.expiry.value, body.supplier.value);
      var f := (_: Medicine) => m;
      var t' := Modify(t, id, acct, f).0;
      LookupModify(t, id, acct, f, id, acct);
      assert forall id2, acct2 :: (id2 != id || acct2 != acct) ==> Lookup(t', id2, acct2) == Lookup(t, id2, acct2) by {
        forall id2, acct2 | id2 != id || acct2 != acct { LookupModify(t, id, acct, f, id2, acct2); }
      }
      (t', Success(Ok, "Medicine updated successfully"))
  }

  /** `DELETE /inventory/:id`. */
  function Remove(t: Table<Medicine>, acct: Account, id: Id): (r: (Table<Medicine>, Reply<string>))
    ensures r.1.Success? <==> AnyMatch(t, id, acct)
    ensures r.1.Failure? ==> r == (t, Failure(NotFound, "Medicine not found"))
    ensures Lookup(r.0, id, acct) == None
    ensures forall id2, acct2 :: (id2 != id || acct2 != acct) ==> Lookup(r.0, id2, acct2) == Lookup(t, id2, acct2)
  {
    var (t', n) := Delete(t, id, acct);
    assert forall id2, acct2 ::
      Lookup(t', id2, acct2) == (if id2 == id && acct2 == acct then None else Lookup(t, id2, acct2)) by {
      forall id2, acct2 { LookupDelete(t, id, acct, id2, acct2); }
    }
    if n == 0 then
      assert t' == t by { Seqs.FilterAll(t, (row: Row<Medicine>) => !Matches(row, id, acct)); }
      (t, Failure(NotFound, "Medicine not found"))
    else (t', Success(Ok, "Medicine deleted successfully"))
  }

  /** `ORDER BY stock ASC` expressed as a descending key. */
  function StockAscKey(row: Row<Medicine>): (int, int)
  {
    (-row.data.stock, 0)
  }

  /** `GET /inventory/low-stock?threshold=n`: the caller's medicines whose
      stock is strictly below the threshold (150 when none is given), lowest
      stock first. */
  function LowStock(t: Table<Medicine>, acct: Account, threshold: Option<int>): (r: seq<Row<Medicine>>)
    ensures forall i :: 0 <= i < |r| ==> r[i] in t && r[i].owner == acct && r[i].data.stock < threshold.GetOr(DefaultLowStock)
    ensures forall i :: 0 <= i < |t| && t[i].owner == acct && t[i].data.stock < threshold.GetOr(DefaultLowStock) ==> t[i] in r
    ensures multiset(r) <= multiset(t)
    ensures forall i, j :: 0 <= i < j < |r| ==> r[i].data.stock <= r[j].data.stock
  {
    var limit := threshold.GetOr(DefaultLowStock);
    var r := Seqs.Select(t, (x: Row<Medicine>) => x.owner == acct && x.data.stock < limit, StockAscKey);
    assert forall i, j :: 0 <= i < j < |r| ==> r[i].data.stock <= r[j].data.stock by {
      forall i, j | 0 <= i < j < |r| ensures r[i].data.stock <= r[j].data.stock {
        assert Seqs.KeyGe(StockAscKey(r[i]), StockAscKey(r[j]));
      }
    }
    r
  }
}
