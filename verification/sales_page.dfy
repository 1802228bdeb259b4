/** Completing a sale from the sales page (`handleSubmitSale` in
    frontend/src/components/Sales.js) and the page's search box. A sale is
    three kinds of independent requests in a row: create the customer,
    record the sale, then write back each cart line's stock. A failing
    request stops the sequence; what was already written stays written. */
module SalesPage {
  import opened Base
  import opened Tables
  import opened Schema
  import Seqs
  import Text
  import opened Cart
  import CustomerRoutes
  import SaleRoutes
  import InventoryRoutes

  /** The customer fields of the sale form, "" when left empty. */
  datatype CustomerInfo = CustomerInfo(name: string, phone: string, email: string)

  /** How a submit ends: refused by the page before any request, stopped by
      a failing request (with the error shown), or completed. */
  datatype Outcome = Rejected(message: string) | Failed(message: string) | Completed

  /** The message shown when a request fails without an error body, as the
      write-back loop does when a cart line has no snapshot row. */
  const FallbackError: string := "Failed to complete sale"

  /** `${item.name} (${item.quantity})` */
  function Entry(line: CartLine): (r: string)
    ensures r != ""
  {
    line.name + " (" + Text.IntToString(line.quantity) + ")"
  }

  function Entries(cart: Cart): (r: seq<string>)
    ensures |r| == |cart| && forall i :: 0 <= i < |r| ==> r[i] == Entry(cart[i])
  {
    seq(|cart|, i requires 0 <= i < |cart| => Entry(cart[i]))
  }

  /** The `items` text of the sale: the entries joined by ", " in cart order. */
  function ItemsString(cart: Cart): (r: string)
    ensures r == "" <==> cart == []
  {
    Text.JoinEmpty(Entries(cart), ", ");
    Text.Join(Entries(cart), ", ")
  }

  /** The items text grows entry by entry, in cart order. */
  lemma {:induction false} ItemsInCartOrder(cart: Cart, line: CartLine)
    ensures ItemsString(cart + [line]) == if cart == [] then Entry(line) else ItemsString(cart) + ", " + Entry(line)
  {
    assert Entries(cart + [line]) == Entries(cart) + [Entry(line)];
    if cart != [] {
      Text.JoinSnoc(Entries(cart), ", ", Entry(line));
    }
  }

  /** The medicine row a line's stock is written back as: the snapshot row
      with `snapshot stock - quantity`. */
  function Sold(m: Medicine, quantity: int): Medicine
  {
    m.(stock := m.stock - quantity)
  }

  /** `{...medicine, stock: medicine.stock - item.quantity}`: every column of
      the snapshot row, so no column is NULL. */
  function StockBody(m: Medicine, quantity: int): (b: InventoryRoutes.MedicineBody)
    ensures InventoryRoutes.NoNulls(b)
  {
    InventoryRoutes.BodyOf(m).(stock := Number(m.stock - quantity))
  }

  /** A row that carries every column of `StockBody` is exactly `Sold`. */
  lemma {:induction false} CarriesSold(x: Medicine, m: Medicine, quantity: int)
    requires InventoryRoutes.Carries(x, StockBody(m, quantity))
    ensures x == Sold(m, quantity)
  {
  }

  /** The line has a snapshot row and the caller still has a row with its id. */
  predicate Writable(inventory: Table<Medicine>, acct: Account, snapshot: seq<Row<Medicine>>, line: CartLine)
  {
    FindMedicine(snapshot, line.id).Some? && AnyMatch(inventory, line.id, acct)
  }

  /** The caller's row for the line is its snapshot row with the line's
      quantity taken off the stock. */
  predicate Written(inventory: Table<Medicine>, acct: Account, snapshot: seq<Row<Medicine>>, line: CartLine)
  {
    && FindMedicine(snapshot, line.id).Some?
    && Lookup(inventory, line.id, acct) == Some(Sold(FindMedicine(snapshot, line.id).value.data, line.quantity))
  }

  /** One `PUT /inventory/:id` of the write-back loop. It fails when the
      line has no snapshot row (reading its stock throws) or when the route
      answers with an error. */
  function WriteOne(inventory: Table<Medicine>, acct: Account, snapshot: seq<Row<Medicine>>, line: CartLine): (r: (Table<Medicine>, Option<string>))
    ensures r.1.None? <==> Writable(inventory, acct, snapshot, line)
    ensures r.1.Some? ==> r.0 == inventory
    ensures r.1.None? ==> Written(r.0, acct, snapshot, line)
    ensures forall id2, acct2 :: (id2 != line.id || acct2 != acct) ==> Lookup(r.0, id2, acct2) == Lookup(inventory, id2, acct2)
    ensures forall id2, acct2 :: AnyMatch(r.0, id2, acct2) == AnyMatch(inventory, id2, acct2)
    ensures UniqueIds(inventory) ==> UniqueIds(r.0)
  {
    match FindMedicine(snapshot, line.id)
    case None => (inventory, Some(FallbackError))
    case Some(m) =>
      var (inv1, reply) := InventoryRoutes.Update(inventory, acct, line.id, StockBody(m.data, line.quantity));
      if reply.Failure? then (inventory, Some(reply.error))
      else
        assert forall id2, acct2 :: AnyMatch(inv1, id2, acct2) == AnyMatch(inventory, id2, acct2) by {
          forall id2, acct2 ensures AnyMatch(inv1, id2, acct2) == AnyMatch(inventory, id2, acct2) {
            if id2 != line.id || acct2 != acct {
              assert Lookup(inv1, id2, acct2) == Lookup(inventory, id2, acct2);
            }
          }
        }
        CarriesSold(Lookup(inv1, line.id, acct).value, m.data, line.quantity);
        (inv1, None)
  }

  /** The stock write-back loop: one `PUT /inventory/:id` per line, in cart
      order, stopping at the first failure with that failure's message. */
  function WriteBack(inventory: Table<Medicine>, acct: Account, snapshot: seq<Row<Medicine>>, lines: Cart): (r: (Table<Medicine>, Option<string>))
    ensures forall id2, acct2 :: AnyMatch(r.0, id2, acct2) == AnyMatch(inventory, id2, acct2)
    ensures UniqueIds(inventory) ==> UniqueIds(r.0)
    decreases |lines|
  {
    if |lines| == 0 then (inventory, None)
    else
      var (inv1, err) := WriteOne(inventory, acct, snapshot, lines[0]);
      if err.Some? then (inventory, err)
      else WriteBack(inv1, acct, snapshot, lines[1..])
  }

  /** The loop completes exactly when every line has a snapshot row and a
      row of the caller's inventory to write to. */
  lemma {:induction false} WriteBackSucceeds(inventory: Table<Medicine>, acct: Account, snapshot: seq<Row<Medicine>>, lines: Cart)
    ensures WriteBack(inventory, acct, snapshot, lines).1.None? <==>
      forall i :: 0 <= i < |lines| ==> Writable(inventory, acct, snapshot, lines[i])
    decreases |lines|
  {
    if |lines| > 0 {
      var (inv1, err) := WriteOne(inventory, acct, snapshot, lines[0]);
      var rest := lines[1..];
      if err.None? {
        WriteBackSucceeds(inv1, acct, snapshot, rest);
        assert WriteBack(inventory, acct, snapshot, lines) == WriteBack(inv1, acct, snapshot, rest);
        forall i | 0 <= i < |rest|
          ensures Writable(inv1, acct, snapshot, rest[i]) == Writable(inventory, acct, snapshot, lines[i + 1])
        {
          assert rest[i] == lines[i + 1];
          assert AnyMatch(inv1, rest[i].id, acct) == AnyMatch(inventory, rest[i].id, acct);
        }
        assert (forall i :: 0 <= i < |lines| ==> Writable(inventory, acct, snapshot, lines[i])) <==>
          (forall i :: 0 <= i < |rest| ==> Writable(inv1, acct, snapshot, rest[i])) by {
          if forall i :: 0 <= i < |rest| ==> Writable(inv1, acct, snapshot, rest[i]) {
            forall i | 0 <= i < |lines| ensures Writable(inventory, acct, snapshot, lines[i]) {
              if i > 0 { assert Writable(inv1, acct, snapshot, rest[i - 1]); }
            }
          }
        }
      }
    }
  }

  /** The loop writes nothing but the lines' own rows of the caller. */
  lemma {:induction false} WriteBackOthersUnchanged(inventory: Table<Medicine>, acct: Account, snapshot: seq<Row<Medicine>>, lines: Cart, id2: Id, acct2: Account)
    requires acct2 != acct || forall i :: 0 <= i < |lines| ==> lines[i].id != id2
    ensures Lookup(WriteBack(inventory, acct, snapshot, lines).0, id2, acct2) == Lookup(inventory, id2, acct2)
    decreases |lines|
  {
    if |lines| > 0 {
      var (inv1, err) := WriteOne(inventory, acct, snapshot, lines[0]);
      if err.None? {
        assert forall i :: 0 <= i < |lines[1..]| ==> lines[1..][i] == lines[i + 1];
        WriteBackOthersUnchanged(inv1, acct, snapshot, lines[1..], id2, acct2);
      }
    }
  }

  /** When every line is writable, the loop completes and leaves each
      line's row as its snapshot row with the quantity taken off the stock. */
  lemma {:induction false} WriteBackWrites(inventory: Table<Medicine>, acct: Account, snapshot: seq<Row<Medicine>>, lines: Cart)
    requires UniqueLines(lines)
    requires forall i :: 0 <= i < |lines| ==> Writable(inventory, acct, snapshot, lines[i])
    ensures WriteBack(inventory, acct, snapshot, lines).1.None?
    ensures forall i :: 0 <= i < |lines| ==> Written(WriteBack(inventory, acct, snapshot, lines).0, acct, snapshot, lines[i])
    decreases |lines|
  {
    if |lines| > 0 {
      var (inv1, err) := WriteOne(inventory, acct, snapshot, lines[0]);
      assert err.None?;
      var rest := lines[1..];
      var r := WriteBack(inventory, acct, snapshot, lines);
      assert r == WriteBack(inv1, acct, snapshot, rest);
      forall i | 0 <= i < |rest| ensures Writable(inv1, acct, snapshot, rest[i]) {
        assert rest[i] == lines[i + 1];
        assert AnyMatch(inv1, rest[i].id, acct) == AnyMatch(inventory, rest[i].id, acct);
      }
      assert UniqueLines(rest) by {
        forall i, j | 0 <= i < j < |rest| ensures rest[i].id != rest[j].id {
          assert rest[i] == lines[i + 1] && rest[j] == lines[j + 1];
        }
      }
      WriteBackWrites(inv1, acct, snapshot, rest);
      assert forall i :: 0 <= i < |rest| ==> rest[i].id != lines[0].id by {
        forall i | 0 <= i < |rest| ensures rest[i].id != lines[0].id {
          assert rest[i] == lines[i + 1];
        }
      }
      WriteBackOthersUnchanged(inv1, acct, snapshot, rest, lines[0].id, acct);
      forall i | 0 <= i < |lines|
        ensures Written(r.0, acct, snapshot, lines[i])
      {
        if i > 0 {
          assert lines[i] == rest[i - 1];
        }
      }
    }
  }

  /** A failing loop stops at its first unwritable line `k`: every line
      before it was writable, and the table is what the first `k` lines
      left. */
  lemma {:induction false} WriteBackStops(inventory: Table<Medicine>, acct: Account, snapshot: seq<Row<Medicine>>, lines: Cart) returns (k: nat)
    requires WriteBack(inventory, acct, snapshot, lines).1.Some?
    ensures k < |lines| && !Writable(inventory, acct, snapshot, lines[k])
    ensures forall i :: 0 <= i < k ==> Writable(inventory, acct, snapshot, lines[i])
    ensures WriteBack(inventory, acct, snapshot, lines).0 == WriteBack(inventory, acct, snapshot, lines[..k]).0
    decreases |lines|
  {
    var w := WriteOne(inventory, acct, snapshot, lines[0]);
    if w.1.Some? {
      k := 0;
      assert WriteBack(inventory, acct, snapshot, lines[..0]) == (inventory, None);
    } else {
      var inv1 := w.0;
      var rest := lines[1..];
      WriteBackStep(inventory, acct, snapshot, lines);
      var j := WriteBackStops(inv1, acct, snapshot, rest);
      k := j + 1;
      assert !Writable(inventory, acct, snapshot, lines[k]) by {
        assert lines[k] == rest[j];
        WritableAfterOne(inventory, acct, snapshot, lines[0], rest[j]);
      }
      WritableBefore(inventory, acct, snapshot, lines, j);
      assert WriteBack(inventory, acct, snapshot, lines[..k]) == WriteBack(inv1, acct, snapshot, rest[..j]) by {
        assert lines[..k][0] == lines[0];
        WriteBackStep(inventory, acct, snapshot, lines[..k]);
        Seqs.PrefixTail(lines, k);
      }
    }
  }

  /** After a successful first write the loop carries on with the rest. */
  lemma {:induction false} WriteBackStep(inventory: Table<Medicine>, acct: Account, snapshot: seq<Row<Medicine>>, lines: Cart)
    requires |lines| > 0 && WriteOne(inventory, acct, snapshot, lines[0]).1.None?
    ensures WriteBack(inventory, acct, snapshot, lines) == WriteBack(WriteOne(inventory, acct, snapshot, lines[0]).0, acct, snapshot, lines[1..])
  {
  }

  /** Lines writable after a successful first write were writable before
      it, and so was the first. */
  lemma {:induction false} WritableBefore(inventory: Table<Medicine>, acct: Account, snapshot: seq<Row<Medicine>>, lines: Cart, j: nat)
    requires j < |lines| && WriteOne(inventory, acct, snapshot, lines[0]).1.None?
    requires forall i :: 0 <= i < j ==> Writable(WriteOne(inventory, acct, snapshot, lines[0]).0, acct, snapshot, lines[1..][i])
    ensures forall i :: 0 <= i <= j ==> Writable(inventory, acct, snapshot, lines[i])
  {
    forall i | 0 < i <= j ensures Writable(inventory, acct, snapshot, lines[i]) {
      assert lines[i] == lines[1..][i - 1];
      WritableAfterOne(inventory, acct, snapshot, lines[0], lines[i]);
    }
  }

  /** A write that succeeds keeps every line exactly as writable as before:
      it neither adds nor removes rows. */
  lemma {:induction false} WritableAfterOne(inventory: Table<Medicine>, acct: Account, snapshot: seq<Row<Medicine>>, first: CartLine, line: CartLine)
    requires WriteOne(inventory, acct, snapshot, first).1.None?
    ensures Writable(WriteOne(inventory, acct, snapshot, first).0, acct, snapshot, line) == Writable(inventory, acct, snapshot, line)
  {
    assert AnyMatch(WriteOne(inventory, acct, snapshot, first).0, line.id, acct) == AnyMatch(inventory, line.id, acct);
  }

  /** For a cart of distinct lines, every line before the stop is written:
      its row holds the snapshot row less the quantity. */
  lemma {:induction false} StoppedLinesWritten(inventory: Table<Medicine>, acct: Account, snapshot: seq<Row<Medicine>>, lines: Cart, k: nat)
    requires UniqueLines(lines) && k <= |lines|
    requires forall i :: 0 <= i < k ==> Writable(inventory, acct, snapshot, lines[i])
    ensures forall i :: 0 <= i < k ==> Written(WriteBack(inventory, acct, snapshot, lines[..k]).0, acct, snapshot, lines[i])
  {
    var prefix := lines[..k];
    assert UniqueLines(prefix) by {
      forall a, b | 0 <= a < b < |prefix| ensures prefix[a].id != prefix[b].id {
        assert prefix[a] == lines[a] && prefix[b] == lines[b];
      }
    }
    forall i | 0 <= i < |prefix| ensures Writable(inventory, acct, snapshot, prefix[i]) {
      assert prefix[i] == lines[i];
    }
    WriteBackWrites(inventory, acct, snapshot, prefix);
    forall i | 0 <= i < k ensures Written(WriteBack(inventory, acct, snapshot, prefix).0, acct, snapshot, lines[i]) {
      assert prefix[i] == lines[i];
    }
  }

  /** `handleSubmitSale`. `customerId`, `saleId`, `today` and `stamp` are
      the clock-derived values of the two POSTs; `pay` is the payment
      method chosen on the form. */
  function Submit(db: Db, acct: Account, snapshot: seq<Row<Medicine>>, cart: Cart, info: CustomerInfo,
                  pay: string, today: Day, stamp: int, customerId: Id, saleId: Id): (r: (Db, Outcome))
    ensures info.name == "" ==> r == (db, Rejected("Customer name is required"))
    ensures info.name != "" && cart == [] ==> r == (db, Rejected("Please add at least one item to cart"))
    ensures r.1.Rejected? ==> r.0 == db
    ensures r.1.Completed? ==> r.0.sales == db.sales + [Row(saleId, acct, Sale(customerId, info.name, ItemsString(cart), Total(cart), pay, today, stamp))]
    ensures r.1.Failed? && r.0.sales == db.sales ==>
      r.0 == db.(customers := CustomerRoutes.Create(db.customers, acct, info.name, info.phone, info.email, today, customerId).0)
    ensures r.1.Failed? && r.0.sales != db.sales ==>
      && r.0.sales == db.sales + [Row(saleId, acct, Sale(customerId, info.name, ItemsString(cart), Total(cart), pay, today, stamp))]
      && r.0.customers == SaleRoutes.ChargeCustomer(CustomerRoutes.Create(db.customers, acct, info.name, info.phone, info.email, today, customerId).0,
                                                    acct, customerId, Total(cart), pay, today)
      && WriteBack(db.inventory, acct, snapshot, cart).1.Some?
      && r.0.inventory == WriteBack(db.inventory, acct, snapshot, cart).0
  {
    if info.name == "" then (db, Rejected("Customer name is required"))
    else if |cart| == 0 then (db, Rejected("Please add at least one item to cart"))
    else
      var (customers1, created) := CustomerRoutes.Create(db.customers, acct, info.name, info.phone, info.email, today, customerId);
      if created.Failure? then (db, Failed(created.error))
      else
        var db1 := db.(customers := customers1);
        var req := SaleRoutes.SaleRequest(created.body.id, info.name, ItemsString(cart), Numeric(Total(cart)), pay);
        var (db2, recorded) := SaleRoutes.Create(db1, acct, req, today, stamp, saleId);
        if recorded.Failure? then (db1, Failed(recorded.error))
        else
          var (inventory3, err) := WriteBack(db2.inventory, acct, snapshot, cart);
          (db2.(inventory := inventory3), if err.Some? then Failed(err.value) else Completed)
  }

  /** The phone field is labelled optional, but an empty phone makes
      `POST /customers` answer 400, so the sale fails before anything is
      written. */
  lemma {:induction false} EmptyPhoneFails(db: Db, acct: Account, snapshot: seq<Row<Medicine>>, cart: Cart, info: CustomerInfo,
                        pay: string, today: Day, stamp: int, customerId: Id, saleId: Id)
    requires info.name != "" && cart != [] && info.phone == ""
    ensures Submit(db, acct, snapshot, cart, info, pay, today, stamp, customerId, saleId) ==
      (db, Failed("Name and phone are required"))
  {
  }

  /** When the sale id is already taken, `POST /sales` fails its INSERT
      after `POST /customers` succeeded: the customer is left recorded with
      no sale, and the inventory is untouched. The customer id is the
      server's `CUST…` id, never empty. */
  lemma {:induction false} SaleFailureKeepsCustomer(db: Db, acct: Account, snapshot: seq<Row<Medicine>>, cart: Cart, info: CustomerInfo,
                                 pay: string, today: Day, stamp: int, customerId: Id, saleId: Id)
    requires info.name != "" && info.phone != "" && pay != "" && cart != []
    requires customerId != "" && !HasId(db.customers, customerId) && HasId(db.sales, saleId)
    ensures var r := Submit(db, acct, snapshot, cart, info, pay, today, stamp, customerId, saleId);
      && r.1 == Failed("Failed to add sale")
      && r.0.sales == db.sales && r.0.inventory == db.inventory
      && Lookup(r.0.customers, customerId, acct).Some?
      && |Owned(r.0.customers, acct)| == |Owned(db.customers, acct)| + 1
  {
    var (customers1, created) := CustomerRoutes.Create(db.customers, acct, info.name, info.phone, info.email, today, customerId);
    assert created.Success?;
    var db1 := db.(customers := customers1);
    var req := SaleRoutes.SaleRequest(customerId, info.name, ItemsString(cart), Numeric(Total(cart)), pay);
    assert !SaleRoutes.AnyFieldFalsy(req);
    assert SaleRoutes.Create(db1, acct, req, today, stamp, saleId).1 == Failure(ServerError, "Failed to add sale");
  }

  /** A completed submit ran the write-back loop to its end over the
      inventory as it was before the submit. */
  lemma {:induction false} CompletedWroteBack(db: Db, acct: Account, snapshot: seq<Row<Medicine>>, cart: Cart, info: CustomerInfo,
                           pay: string, today: Day, stamp: int, customerId: Id, saleId: Id)
    requires Submit(db, acct, snapshot, cart, info, pay, today, stamp, customerId, saleId).1.Completed?
    ensures var r := WriteBack(db.inventory, acct, snapshot, cart);
      && r.1.None?
      && Submit(db, acct, snapshot, cart, info, pay, today, stamp, customerId, saleId).0.inventory == r.0
  {
    var (customers1, created) := CustomerRoutes.Create(db.customers, acct, info.name, info.phone, info.email, today, customerId);
    var db1 := db.(customers := customers1);
    var req := SaleRoutes.SaleRequest(created.body.id, info.name, ItemsString(cart), Numeric(Total(cart)), pay);
    assert SaleRoutes.Create(db1, acct, req, today, stamp, saleId).0.inventory == db.inventory;
  }

  /** A written line of a valid cart leaves its row at the snapshot stock
      minus the quantity, which is at least zero. */
  lemma {:induction false} WrittenStock(inv: Table<Medicine>, acct: Account, snapshot: seq<Row<Medicine>>, line: CartLine)
    requires Written(inv, acct, snapshot, line) && Stocked(line, snapshot) && 1 <= line.quantity <= line.maxStock
    ensures Lookup(inv, line.id, acct).Some?
    ensures Lookup(inv, line.id, acct).value.stock == line.maxStock - line.quantity >= 0
  {
  }

  /** The headline property of checkout: for a cart that keeps its
      invariants, a completed sale writes every line's stock back as the
      snapshot stock minus the quantity sold, which is never negative, and
      leaves every other medicine alone. */
  lemma {:induction false} StockNeverNegative(db: Db, acct: Account, snapshot: seq<Row<Medicine>>, cart: Cart, info: CustomerInfo,
                           pay: string, today: Day, stamp: int, customerId: Id, saleId: Id)
    requires ValidCart(cart, snapshot)
    requires Submit(db, acct, snapshot, cart, info, pay, today, stamp, customerId, saleId).1.Completed?
    ensures var inv := Submit(db, acct, snapshot, cart, info, pay, today, stamp, customerId, saleId).0.inventory;
      && (forall i :: 0 <= i < |cart| ==>
            && Lookup(inv, cart[i].id, acct).Some?
            && Lookup(inv, cart[i].id, acct).value.stock == cart[i].maxStock - cart[i].quantity
            && Lookup(inv, cart[i].id, acct).value.stock >= 0)
      && (forall id2 :: (forall i :: 0 <= i < |cart| ==> cart[i].id != id2) ==>
            Lookup(inv, id2, acct) == Lookup(db.inventory, id2, acct))
  {
    var inv := Submit(db, acct, snapshot, cart, info, pay, today, stamp, customerId, saleId).0.inventory;
    CompletedWroteBack(db, acct, snapshot, cart, info, pay, today, stamp, customerId, saleId);
    assert forall i :: 0 <= i < |cart| ==> Written(inv, acct, snapshot, cart[i]) by {
      WriteBackSucceeds(db.inventory, acct, snapshot, cart);
      WriteBackWrites(db.inventory, acct, snapshot, cart);
    }
    forall i | 0 <= i < |cart|
      ensures Lookup(inv, cart[i].id, acct).Some?
      ensures Lookup(inv, cart[i].id, acct).value.stock == cart[i].maxStock - cart[i].quantity >= 0
    {
      WrittenStock(inv, acct, snapshot, cart[i]);
    }
    forall id2 | forall i :: 0 <= i < |cart| ==> cart[i].id != id2
      ensures Lookup(inv, id2, acct) == Lookup(db.inventory, id2, acct)
    {
      WriteBackOthersUnchanged(db.inventory, acct, snapshot, cart, id2, acct);
    }
  }

  /** A completed sale of a cart whose phone and payment method are given
      records one new customer whose purchases equal the cart total and
      whose credit is the total exactly for a credit sale. */
  lemma {:induction false} NewBuyerCharged(db: Db, acct: Account, snapshot: seq<Row<Medicine>>, cart: Cart, info: CustomerInfo,
                        pay: string, today: Day, stamp: int, customerId: Id, saleId: Id)
    requires Submit(db, acct, snapshot, cart, info, pay, today, stamp, customerId, saleId).1.Completed?
    ensures var c := Lookup(Submit(db, acct, snapshot, cart, info, pay, today, stamp, customerId, saleId).0.customers, customerId, acct);
      && c.Some? && c.value.name == info.name && c.value.phone == info.phone
      && c.value.totalPurchases == Total(cart) && c.value.lastVisit == today
      && c.value.credit == Some(if pay == SaleRoutes.CreditMethod then Total(cart) else 0)
  {
    var (customers1, created) := CustomerRoutes.Create(db.customers, acct, info.name, info.phone, info.email, today, customerId);
    assert created.Success? && created.body.id == customerId;
    var buyer := created.body.data;
    assert Lookup(customers1, customerId, acct) == Some(buyer);
    var db1 := db.(customers := customers1);
    var req := SaleRoutes.SaleRequest(customerId, info.name, ItemsString(cart), Numeric(Total(cart)), pay);
    var db2 := SaleRoutes.Create(db1, acct, req, today, stamp, saleId).0;
    var charged := SaleRoutes.ChargeCustomer(customers1, acct, customerId, Total(cart), pay, today);
    assert db2.customers == charged;
    SaleRoutes.CreditIffCreditMethod(customers1, acct, customerId, Total(cart), pay, today, buyer, 0);
  }

  /** The search box: the sales whose customer name contains the term,
      ignoring case, in list order. */
  function SearchSales(sales: seq<Row<Sale>>, term: string): (r: seq<Row<Sale>>)
    ensures forall i :: 0 <= i < |r| ==> r[i] in sales && Text.ContainsIgnoreCase(r[i].data.customerName, term)
    ensures forall i :: 0 <= i < |sales| && Text.ContainsIgnoreCase(sales[i].data.customerName, term) ==> sales[i] in r
    ensures Seqs.SubsequenceOf(r, sales)
  {
    Seqs.FilterMembers(sales, NameMatches(term));
    Seqs.FilterSubsequence(sales, NameMatches(term));
    Seqs.Filter(sales, NameMatches(term))
  }

  /** Each matching sale is listed as often as it is in the list, and no
      other sale is listed. */
  lemma {:induction false} SearchSalesCount(sales: seq<Row<Sale>>, term: string)
    ensures forall x :: multiset(SearchSales(sales, term))[x] == (if Text.ContainsIgnoreCase(x.data.customerName, term) then multiset(sales)[x] else 0)
  {
    Seqs.FilterCount(sales, NameMatches(term));
  }

  function NameMatches(term: string): Row<Sale> -> bool
  {
    (s: Row<Sale>) => Text.ContainsIgnoreCase(s.data.customerName, term)
  }

  /** An empty search term lists every sale, in order. */
  lemma {:induction false} EmptySearchKeepsAll(sales: seq<Row<Sale>>)
    ensures SearchSales(sales, "") == sales
  {
    forall i | 0 <= i < |sales| ensures NameMatches("")(sales[i]) {
      Text.ContainsEmpty(Text.Lower(sales[i].data.customerName));
    }
    Seqs.FilterAll(sales, NameMatches(""));
  }
}
