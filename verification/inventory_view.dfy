/** The inventory page (src/components/Inventory.js): the expiry rules for
    adding a medicine, the expiry notes and low-stock marker of the table,
    and the search box. */
module InventoryView {
  import opened Base
  import opened Tables
  import opened Schema
  import InventoryRoutes
  import Seqs
  import Text

  /** Milliseconds in a day: `new Date('YYYY-MM-DD')` is midnight UTC of
      that day, so the instant of day `d` is `d * DayMs`. */
  const DayMs: int := 86400000

  /** The table's low-stock mark. */
  const LowStockMark: int := 150

  const ExpiredMessage := "Cannot add expired medicine"
  const SoonMessage := "Cannot add medicine expiring within 2 months"

  function Midnight(d: Day): int
  {
    d * DayMs
  }

  /** The two instants the page reads off the browser clock: `now` is
      `new Date()`, `horizon` is the same instant moved two calendar months
      on by `setMonth(getMonth() + 2)`. */
  datatype Clock = Clock(now: int, horizon: int)

  /** Moving the month forward never moves the instant back. */
  predicate ValidClock(c: Clock)
  {
    c.now <= c.horizon
  }

  /** `isExpired`: the expiry day started before now. */
  predicate IsExpired(d: Day, c: Clock)
  {
    Midnight(d) < c.now
  }

  /** `isExpiringWithinTwoMonths`: the expiry day starts no later than the
      horizon. */
  predicate ExpiringWithinTwoMonths(d: Day, c: Clock)
  {
    Midnight(d) <= c.horizon
  }

  /** An expired medicine is always also expiring within two months. */
  lemma {:induction false} ExpiredIsExpiring(d: Day, c: Clock)
    requires ValidClock(c) && IsExpired(d, c)
    ensures ExpiringWithinTwoMonths(d, c)
  {
  }

  datatype Validation = Valid | Invalid(message: string)

  /** `validateExpiryDate`. `None` is an empty or unreadable date: `new Date`
      gives an invalid date, both comparisons are false, and the date passes. */
  function ValidateExpiry(expiry: Option<Day>, c: Clock): (r: Validation)
    ensures expiry.None? ==> r == Valid
    ensures expiry.Some? ==> (r.Valid? <==> !IsExpired(expiry.value, c) && !ExpiringWithinTwoMonths(expiry.value, c))
    ensures expiry.Some? && IsExpired(expiry.value, c) ==> r == Invalid(ExpiredMessage)
    ensures expiry.Some? && !IsExpired(expiry.value, c) && ExpiringWithinTwoMonths(expiry.value, c) ==> r == Invalid(SoonMessage)
  {
    match expiry
    case None => Valid
    case Some(d) =>
      if Midnight(d) < c.now then Invalid(ExpiredMessage)
      else if Midnight(d) <= c.horizon then Invalid(SoonMessage)
      else Valid
  }

  /** On a consistent clock a date passes exactly when its day starts after
      the two-month horizon. */
  lemma {:induction false} ValidIffBeyondHorizon(d: Day, c: Clock)
    requires ValidClock(c)
    ensures ValidateExpiry(Some(d), c).Valid? <==> Midnight(d) > c.horizon
  {
  }

  /** What the page shows after the form is submitted. */
  datatype Notice = Refused(message: string) | Failed(message: string) | Saved(message: string)

  /** The body of the edit `PUT`: the form's fields as they stand. */
  function EditBody(m: InventoryRoutes.MedicineForm): (b: InventoryRoutes.MedicineBody)
    ensures b.name == Some(m.name) && b.category == Some(m.category) && b.supplier == Some(m.supplier)
    ensures b.stock == m.stock && b.price == m.price && b.expiry == m.expiry
  {
    InventoryRoutes.MedicineBody(Some(m.name), Some(m.category), m.stock, m.price, m.expiry, Some(m.supplier))
  }

  /** `handleSubmit`. A new medicine is checked against the expiry rules and
      then posted under `newId`; an edit is put to `editId` with no expiry
      check. */
  function Submit(t: Table<Medicine>, acct: Account, editMode: bool, m: InventoryRoutes.MedicineForm,
                  editId: Id, c: Clock, newId: Id): (r: (Table<Medicine>, Notice))
    ensures !editMode && ValidateExpiry(m.expiry, c).Invalid? ==> r == (t, Refused(ValidateExpiry(m.expiry, c).message))
    ensures !editMode && r.1.Saved? ==>
      && ValidateExpiry(m.expiry, c).Valid?
      && r.1 == Saved("Medicine added successfully")
      && Lookup(r.0, newId, acct).Some? && Some(Lookup(r.0, newId, acct).value.expiry) == m.expiry
    ensures editMode && r.1.Saved? ==> r.1 == Saved("Medicine updated successfully")
    ensures !r.1.Saved? ==> r.0 == t
  {
    if !editMode then
      match ValidateExpiry(m.expiry, c)
      case Invalid(message) => (t, Refused(message))
      case Valid =>
        var (t', reply) := InventoryRoutes.Create(t, acct, m, newId);
        if reply.Failure? then (t, Failed(reply.error)) else (t', Saved("Medicine added successfully"))
    else
      var (t', reply) := InventoryRoutes.Update(t, acct, editId, EditBody(m));
      if reply.Failure? then (t, Failed(reply.error)) else (t', Saved("Medicine updated successfully"))
  }

  /** A medicine added through the form expires after the horizon, so the
      table shows it neither as expired nor as expiring soon. */
  lemma {:induction false} AddedIsFresh(t: Table<Medicine>, acct: Account, m: InventoryRoutes.MedicineForm, editId: Id, c: Clock, newId: Id)
    requires ValidClock(c)
    requires Submit(t, acct, false, m, editId, c, newId).1.Saved?
    ensures var row := Lookup(Submit(t, acct, false, m, editId, c, newId).0, newId, acct);
      && row.Some?
      && Midnight(row.value.expiry) > c.horizon
      && !IsExpired(row.value.expiry, c) && !ExpiringWithinTwoMonths(row.value.expiry, c)
  {
    var row := Lookup(Submit(t, acct, false, m, editId, c, newId).0, newId, acct);
    assert m.expiry == Some(row.value.expiry);
    ValidIffBeyondHorizon(row.value.expiry, c);
  }

  /** An edit does not look at the clock: the same form saves the same way
      whatever the date, an expired one included. */
  lemma {:induction false} EditIgnoresExpiry(t: Table<Medicine>, acct: Account, m: InventoryRoutes.MedicineForm, editId: Id, c1: Clock, c2: Clock, newId: Id)
    ensures Submit(t, acct, true, m, editId, c1, newId) == Submit(t, acct, true, m, editId, c2, newId)
    ensures Submit(t, acct, true, m, editId, c1, newId).1.Saved? <==>
      AnyMatch(t, editId, acct) && InventoryRoutes.NoNulls(EditBody(m))
  {
  }

  /** The note after the expiry date in the table. */
  function ExpiryNote(d: Day, c: Clock): (r: string)
    ensures r == " (EXPIRED)" <==> IsExpired(d, c)
    ensures r == " (Expiring Soon)" <==> !IsExpired(d, c) && ExpiringWithinTwoMonths(d, c)
    ensures r == "" <==> !IsExpired(d, c) && !ExpiringWithinTwoMonths(d, c)
  {
    (if IsExpired(d, c) then " (EXPIRED)" else "")
    + (if !IsExpired(d, c) && ExpiringWithinTwoMonths(d, c) then " (Expiring Soon)" else "")
  }

  /** The warning triangle and the `expiry-warning` style both follow
      `isExpiringWithinTwoMonths`; on a consistent clock every row with a
      note carries the warning, and only those rows do. */
  lemma {:induction false} NoteIffWarned(d: Day, c: Clock)
    requires ValidClock(c)
    ensures ExpiryNote(d, c) != "" <==> ExpiringWithinTwoMonths(d, c)
  {
    if IsExpired(d, c) {
      ExpiredIsExpiring(d, c);
    }
  }

  /** The `stock-low` / `stock-ok` style of the stock cell. */
  function StockStyle(stock: int): (r: string)
    ensures r == "stock-low" <==> stock < LowStockMark
    ensures r == "stock-ok" <==> stock >= LowStockMark
  {
    if stock < LowStockMark then "stock-low" else "stock-ok"
  }

  /** The page's low-stock style marks exactly the medicines the backend's
      default low-stock listing returns. */
  lemma {:induction false} LowStyleIffListed(t: Table<Medicine>, acct: Account, i: nat)
    requires i < |t| && t[i].owner == acct
    ensures StockStyle(t[i].data.stock) == "stock-low" <==> t[i] in InventoryRoutes.LowStock(t, acct, None)
  {
  }

  /** The search filter: name, category or supplier contains the term,
      ignoring case. */
  function Matching(term: string): Row<Medicine> -> bool
  {
    (x: Row<Medicine>) =>
      || Text.ContainsIgnoreCase(x.data.name, term)
      || Text.ContainsIgnoreCase(x.data.category, term)
      || Text.ContainsIgnoreCase(x.data.supplier, term)
  }

  /** The rows the table shows for a search term. */
  function Search(items: seq<Row<Medicine>>, term: string): (r: seq<Row<Medicine>>)
    ensures forall i :: 0 <= i < |r| ==> r[i] in items && Matching(term)(r[i])
    ensures forall i :: 0 <= i < |items| && Matching(term)(items[i]) ==> items[i] in r
  {
    Seqs.FilterMembers(items, Matching(term));
    Seqs.Filter(items, Matching(term))
  }

  /** The search keeps the rows in list order, and an empty term keeps them
      all. */
  lemma {:induction false} SearchInOrder(items: seq<Row<Medicine>>, term: string)
    ensures Seqs.SubsequenceOf(Search(items, term), items)
    ensures term == "" ==> Search(items, term) == items
  {
    Seqs.FilterSubsequence(items, Matching(term));
    if term == "" {
      forall i | 0 <= i < |items| ensures Matching(term)(items[i]) {
        Text.ContainsEmpty(Text.Lower(items[i].data.name));
      }
      Seqs.FilterAll(items, Matching(term));
    }
  }
}
