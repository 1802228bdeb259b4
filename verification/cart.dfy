/** The cart of the sales page (frontend/src/components/Sales.js): lines are
    added, merged, re-counted and removed against the stock snapshot the page
    fetched when it opened. */
module Cart {
  import opened Base
  import opened Tables
  import opened Schema
  import Seqs
  import Text

  /** One cart line; `maxStock` is the medicine's stock when it was added. */
  datatype CartLine = CartLine(id: Id, name: string, price: Money, quantity: int, subtotal: Money, maxStock: int)

  type Cart = seq<CartLine>

  /** `item => item.stock > 0` */
  function InStock(): Row<Medicine> -> bool
  {
    (row: Row<Medicine>) => row.data.stock > 0
  }

  /** The medicines the page offers: the fetched rows that have stock, in
      the order fetched. */
  function Snapshot(rows: seq<Row<Medicine>>): (r: seq<Row<Medicine>>)
    ensures forall i :: 0 <= i < |r| ==> r[i] in rows && r[i].data.stock > 0
    ensures forall i :: 0 <= i < |rows| && rows[i].data.stock > 0 ==> rows[i] in r
    ensures Seqs.SubsequenceOf(r, rows)
  {
    Seqs.FilterMembers(rows, InStock());
    Seqs.FilterSubsequence(rows, InStock());
    Seqs.Filter(rows, InStock())
  }

  /** Each stocked row is offered as often as it was fetched, and no other
      row is offered. */
  lemma {:induction false} SnapshotCount(rows: seq<Row<Medicine>>)
    ensures forall x :: multiset(Snapshot(rows))[x] == if x.data.stock > 0 then multiset(rows)[x] else 0
  {
    Seqs.FilterCount(rows, InStock());
  }

  /** `inventory.find(m => m.id === id)`: the first row with that id. */
  function FindMedicine(snapshot: seq<Row<Medicine>>, id: Id): (r: Option<Row<Medicine>>)
    ensures r.None? <==> forall i :: 0 <= i < |snapshot| ==> snapshot[i].id != id
    ensures r.Some? ==> r.value in snapshot && r.value.id == id
  {
    if |snapshot| == 0 then None
    else if snapshot[0].id == id then Some(snapshot[0])
    else
      var r := FindMedicine(snapshot[1..], id);
      assert forall i :: 1 <= i < |snapshot| ==> snapshot[i] == snapshot[1..][i - 1];
      r
  }

  /** `cart.find(item => item.id === id)`: the first line with that id. */
  function FindLine(cart: Cart, id: Id): (r: Option<CartLine>)
    ensures r.None? <==> forall i :: 0 <= i < |cart| ==> cart[i].id != id
    ensures r.Some? ==> exists k :: 0 <= k < |cart| && cart[k] == r.value && r.value.id == id
  {
    if |cart| == 0 then None
    else if cart[0].id == id then Some(cart[0])
    else
      var r := FindLine(cart[1..], id);
      assert forall i :: 1 <= i < |cart| ==> cart[i] == cart[1..][i - 1];
      assert r.Some? ==> exists k :: 0 <= k < |cart| && cart[k] == r.value && r.value.id == id by {
        if r.Some? {
          var k :| 0 <= k < |cart[1..]| && cart[1..][k] == r.value;
          assert cart[k + 1] == r.value;
        }
      }
      r
  }

  /** The messages `setError` shows. */
  datatype CartError = SelectMedicine | OnlyInStock(stock: int) | OnlyAvailable(maxStock: int)
  {
    function Message(): string
    {
      match this
      case SelectMedicine => "Please select a medicine"
      case OnlyInStock(n) => "Only " + Text.IntToString(n) + " units available in stock"
      case OnlyAvailable(n) => "Only " + Text.IntToString(n) + " units available"
    }
  }

  /** What a cart handler does: set a new cart, show an error and keep the
      cart, or return early with nothing changed. */
  datatype CartStep = Updated(cart: Cart) | Refused(error: CartError) | Ignored

  /** The result of a step, as the cart the page then holds. */
  function After(cart: Cart, step: CartStep): Cart
  {
    if step.Updated? then step.cart else cart
  }

  function Subtotal(line: CartLine): int { line.subtotal }

  /** `cart.map(item => item.id === id ? {...item, quantity: q, subtotal: q * item.price} : item)` */
  function SetQuantity(cart: Cart, id: Id, q: int): (r: Cart)
    ensures |r| == |cart|
    ensures forall i :: 0 <= i < |cart| ==>
      r[i] == if cart[i].id == id then cart[i].(quantity := q, subtotal := q * cart[i].price) else cart[i]
  {
    seq(|cart|, i requires 0 <= i < |cart| =>
      if cart[i].id == id then cart[i].(quantity := q, subtotal := q * cart[i].price) else cart[i])
  }

  /** A new line for medicine `m`, as the add handler builds it. */
  function NewLine(m: Row<Medicine>, quantity: int): CartLine
  {
    CartLine(m.id, m.data.name, m.data.price, quantity, quantity * m.data.price, m.data.stock)
  }

  /** `handleAddToCart` with the selected medicine id and the quantity field. */
  function AddToCart(cart: Cart, snapshot: seq<Row<Medicine>>, selected: Id, quantity: int): (r: CartStep)
    ensures selected == "" ==> r == Refused(SelectMedicine)
    ensures selected != "" && FindMedicine(snapshot, selected).None? ==> r == Ignored
    ensures r.Refused? && selected != "" ==>
      FindMedicine(snapshot, selected).Some? && r.error == OnlyInStock(FindMedicine(snapshot, selected).value.data.stock)
  {
    if selected == "" then Refused(SelectMedicine)
    else
      match FindMedicine(snapshot, selected)
      case None => Ignored
      case Some(m) =>
        if quantity > m.data.stock then Refused(OnlyInStock(m.data.stock))
        else
          match FindLine(cart, m.id)
          case Some(line) =>
            var merged := line.quantity + quantity;
            if merged > m.data.stock then Refused(OnlyInStock(m.data.stock))
            else Updated(SetQuantity(cart, m.id, merged))
          case None => Updated(cart + [NewLine(m, quantity)])
  }

  /** `handleUpdateQuantity`. An id with no line makes `item.maxStock` throw,
      which leaves the cart as it was. */
  function UpdateQuantity(cart: Cart, id: Id, q: int): (r: CartStep)
    ensures FindLine(cart, id).None? ==> r == Ignored
    ensures r.Refused? <==> FindLine(cart, id).Some? && q > FindLine(cart, id).value.maxStock
    ensures r.Refused? ==> r.error == OnlyAvailable(FindLine(cart, id).value.maxStock)
    ensures r.Updated? <==> FindLine(cart, id).Some? && 1 <= q <= FindLine(cart, id).value.maxStock
    ensures r.Updated? ==> |r.cart| == |cart|
    ensures r.Updated? ==> forall i :: 0 <= i < |cart| && cart[i].id != id ==> r.cart[i] == cart[i]
    ensures r.Updated? ==> forall i :: 0 <= i < |cart| && cart[i].id == id ==> r.cart[i].quantity == q
  {
    match FindLine(cart, id)
    case None => Ignored
    case Some(line) =>
      if q > line.maxStock then Refused(OnlyAvailable(line.maxStock))
      else if q < 1 then Ignored
      else Updated(SetQuantity(cart, id, q))
  }

  /** `handleRemoveFromCart`: `cart.filter(item => item.id !== id)`. */
  function RemoveFromCart(cart: Cart, id: Id): (r: Cart)
    ensures forall i :: 0 <= i < |r| ==> r[i].id != id && r[i] in cart
    ensures forall i :: 0 <= i < |cart| && cart[i].id != id ==> cart[i] in r
  {
    Seqs.FilterMembers(cart, OtherLine(id));
    Seqs.Filter(cart, OtherLine(id))
  }

  function OtherLine(id: Id): CartLine -> bool
  {
    (line: CartLine) => line.id != id
  }

  /** `calculateTotal`: the sum of the line subtotals (the page formats it
      with two decimals). */
  function Total(cart: Cart): Money
  {
    Seqs.Sum(cart, Subtotal)
  }

  /** The line ids are pairwise distinct. */
  predicate UniqueLines(cart: Cart)
  {
    forall i, j :: 0 <= i < j < |cart| ==> cart[i].id != cart[j].id
  }

  /** The line agrees with the snapshot row it was made from. */
  predicate Stocked(line: CartLine, snapshot: seq<Row<Medicine>>)
  {
    && FindMedicine(snapshot, line.id).Some?
    && var m := FindMedicine(snapshot, line.id).value;
    && line.maxStock == m.data.stock && line.price == m.data.price && line.name == m.data.name
  }

  /** The cart invariants: unique ids, `subtotal = quantity × price`, and
      `1 <= quantity <= maxStock`, with every line backed by its snapshot row. */
  predicate ValidCart(cart: Cart, snapshot: seq<Row<Medicine>>)
  {
    && UniqueLines(cart)
    && (forall i :: 0 <= i < |cart| ==> cart[i].subtotal == cart[i].quantity * cart[i].price)
    && (forall i :: 0 <= i < |cart| ==> 1 <= cart[i].quantity <= cart[i].maxStock)
    && (forall i :: 0 <= i < |cart| ==> Stocked(cart[i], snapshot))
  }

  /** Under unique ids, the line found for `id` sits at one index. */
  lemma {:induction false} LineAt(cart: Cart, id: Id) returns (k: nat)
    requires UniqueLines(cart) && FindLine(cart, id).Some?
    ensures k < |cart| && cart[k] == FindLine(cart, id).value && cart[k].id == id
    ensures forall i :: 0 <= i < |cart| && i != k ==> cart[i].id != id
  {
    k :| 0 <= k < |cart| && cart[k] == FindLine(cart, id).value && FindLine(cart, id).value.id == id;
  }

  /** Under unique ids, setting a quantity replaces exactly one line. */
  lemma {:induction false} SetQuantityAt(cart: Cart, id: Id, q: int, k: nat)
    requires k < |cart| && cart[k].id == id
    requires forall i :: 0 <= i < |cart| && i != k ==> cart[i].id != id
    ensures SetQuantity(cart, id, q) == cart[k := cart[k].(quantity := q, subtotal := q * cart[k].price)]
  {
  }

  /** What an accepted add did: the medicine was found, and the cart is
      either its existing line re-counted or the old cart with a new line. */
  lemma {:induction false} AddAccepted(cart: Cart, snapshot: seq<Row<Medicine>>, selected: Id, quantity: int)
    returns (m: Row<Medicine>)
    requires AddToCart(cart, snapshot, selected, quantity).Updated?
    ensures FindMedicine(snapshot, selected) == Some(m) && m.id == selected && quantity <= m.data.stock
    ensures FindLine(cart, selected).Some? ==>
      var merged := FindLine(cart, selected).value.quantity + quantity;
      merged <= m.data.stock && AddToCart(cart, snapshot, selected, quantity).cart == SetQuantity(cart, selected, merged)
    ensures FindLine(cart, selected).None? ==>
      AddToCart(cart, snapshot, selected, quantity).cart == cart + [NewLine(m, quantity)]
  {
    m := FindMedicine(snapshot, selected).value;
  }

  /** An accepted add either raises the quantity of the medicine's existing
      line, keeping the number of lines, or appends one new line; an add is
      refused exactly when the quantity, or the merged quantity, exceeds the
      medicine's stock. */
  lemma {:induction false} AddMergesOrAppends(cart: Cart, snapshot: seq<Row<Medicine>>, selected: Id, quantity: int)
    requires selected != "" && FindMedicine(snapshot, selected).Some?
    ensures var m := FindMedicine(snapshot, selected).value;
      var r := AddToCart(cart, snapshot, selected, quantity);
      var merged := if FindLine(cart, selected).Some? then FindLine(cart, selected).value.quantity + quantity else quantity;
      && (r.Refused? <==> quantity > m.data.stock || merged > m.data.stock)
      && (FindLine(cart, selected).Some? && r.Updated? ==>
            |r.cart| == |cart| && FindLine(r.cart, selected).Some? && FindLine(r.cart, selected).value.quantity == merged)
      && (FindLine(cart, selected).None? && r.Updated? ==> r.cart == cart + [NewLine(m, quantity)])
  {
    var m := FindMedicine(snapshot, selected).value;
    var r := AddToCart(cart, snapshot, selected, quantity);
    if FindLine(cart, selected).Some? && r.Updated? {
      var line := FindLine(cart, selected).value;
      var k :| 0 <= k < |cart| && cart[k] == line && line.id == selected;
      assert r.cart[k].id == selected;
      var found := FindLine(r.cart, selected).value;
      var j :| 0 <= j < |r.cart| && r.cart[j] == found && found.id == selected;
      assert cart[j].id == selected;
    }
  }

  /** Re-counting line `k` within its stock keeps the cart invariants. */
  lemma {:induction false} SetLineKeepsValid(cart: Cart, snapshot: seq<Row<Medicine>>, k: nat, q: int)
    requires ValidCart(cart, snapshot) && k < |cart| && 1 <= q <= cart[k].maxStock
    ensures ValidCart(cart[k := cart[k].(quantity := q, subtotal := q * cart[k].price)], snapshot)
  {
    var c := cart[k := cart[k].(quantity := q, subtotal := q * cart[k].price)];
    assert forall i :: 0 <= i < |c| ==> c[i].id == cart[i].id;
    assert Stocked(c[k], snapshot) by {
      assert Stocked(cart[k], snapshot);
    }
  }

  /** Appending a line for a medicine not yet in the cart, within its
      stock and built from its snapshot row, keeps the cart invariants. */
  lemma {:induction false} AppendKeepsValid(cart: Cart, snapshot: seq<Row<Medicine>>, line: CartLine)
    requires ValidCart(cart, snapshot)
    requires forall i :: 0 <= i < |cart| ==> cart[i].id != line.id
    requires line.subtotal == line.quantity * line.price && 1 <= line.quantity <= line.maxStock
    requires Stocked(line, snapshot)
    ensures ValidCart(cart + [line], snapshot)
  {
    var c := cart + [line];
    assert forall i :: 0 <= i < |cart| ==> c[i] == cart[i];
    assert c[|cart|] == line;
  }

  /** Adding keeps the cart invariants, given a quantity of at least one
      (the quantity field itself lets a typed negative number through). */
  lemma {:induction false} AddKeepsValid(cart: Cart, snapshot: seq<Row<Medicine>>, selected: Id, quantity: int)
    requires ValidCart(cart, snapshot) && quantity >= 1
    ensures ValidCart(After(cart, AddToCart(cart, snapshot, selected, quantity)), snapshot)
  {
    var after := After(cart, AddToCart(cart, snapshot, selected, quantity));
    if AddToCart(cart, snapshot, selected, quantity).Updated? {
      var m := AddAccepted(cart, snapshot, selected, quantity);
      if FindLine(cart, selected).Some? {
        var k := LineAt(cart, selected);
        var q := cart[k].quantity + quantity;
        assert cart[k].maxStock == m.data.stock by {
          assert Stocked(cart[k], snapshot);
        }
        SetQuantityAt(cart, selected, q, k);
        SetLineKeepsValid(cart, snapshot, k, q);
        ValidSame(cart[k := cart[k].(quantity := q, subtotal := q * cart[k].price)], after, snapshot);
      } else {
        var line := NewLine(m, quantity);
        assert Stocked(line, snapshot);
        AppendKeepsValid(cart, snapshot, line);
        ValidSame(cart + [line], after, snapshot);
      }
    }
  }

  lemma {:induction false} ValidSame(a: Cart, b: Cart, snapshot: seq<Row<Medicine>>)
    requires ValidCart(a, snapshot) && a == b
    ensures ValidCart(b, snapshot)
  {
  }

  /** Raising the quantity of line `k` raises the total by the added
      quantity times the line's price. */
  lemma {:induction false} MergeTotal(cart: Cart, k: nat, quantity: int)
    requires k < |cart| && cart[k].subtotal == cart[k].quantity * cart[k].price
    requires forall i :: 0 <= i < |cart| && i != k ==> cart[i].id != cart[k].id
    ensures Total(SetQuantity(cart, cart[k].id, cart[k].quantity + quantity)) == Total(cart) + quantity * cart[k].price
  {
    var q := cart[k].quantity + quantity;
    SetQuantityAt(cart, cart[k].id, q, k);
    Seqs.SumUpdate(cart, k, cart[k].(quantity := q, subtotal := q * cart[k].price), Subtotal);
    assert q * cart[k].price == cart[k].quantity * cart[k].price + quantity * cart[k].price;
  }

  /** An appended line adds its subtotal to the total. */
  lemma {:induction false} AppendTotal(cart: Cart, line: CartLine)
    ensures Total(cart + [line]) == Total(cart) + line.subtotal
  {
    Seqs.SumAppend(cart, [line], Subtotal);
    assert Seqs.Sum([line], Subtotal) == line.subtotal;
  }

  /** An accepted add raises the total by exactly `quantity × price`. */
  lemma {:induction false} AddTotal(cart: Cart, snapshot: seq<Row<Medicine>>, selected: Id, quantity: int)
    requires ValidCart(cart, snapshot) && AddToCart(cart, snapshot, selected, quantity).Updated?
    ensures Total(AddToCart(cart, snapshot, selected, quantity).cart) ==
      Total(cart) + quantity * FindMedicine(snapshot, selected).value.data.price
  {
    var m := AddAccepted(cart, snapshot, selected, quantity);
    if FindLine(cart, selected).Some? {
      var k := LineAt(cart, selected);
      assert cart[k].price == m.data.price by {
        assert Stocked(cart[k], snapshot);
      }
      MergeTotal(cart, k, quantity);
    } else {
      AppendTotal(cart, NewLine(m, quantity));
    }
  }

  /** Re-counting keeps the cart invariants. */
  lemma {:induction false} UpdateKeepsValid(cart: Cart, snapshot: seq<Row<Medicine>>, id: Id, q: int)
    requires ValidCart(cart, snapshot)
    ensures ValidCart(After(cart, UpdateQuantity(cart, id, q)), snapshot)
  {
    if UpdateQuantity(cart, id, q).Updated? {
      var k := LineAt(cart, id);
      SetQuantityAt(cart, id, q, k);
      SetLineKeepsValid(cart, snapshot, k, q);
    }
  }

  /** Re-counting a line replaces its subtotal by `q × price` in the total. */
  lemma {:induction false} UpdateTotal(cart: Cart, snapshot: seq<Row<Medicine>>, id: Id, q: int)
    requires ValidCart(cart, snapshot) && UpdateQuantity(cart, id, q).Updated?
    ensures var line := FindLine(cart, id).value;
      Total(UpdateQuantity(cart, id, q).cart) == Total(cart) - line.quantity * line.price + q * line.price
  {
    var k := LineAt(cart, id);
    SetQuantityAt(cart, id, q, k);
    Seqs.SumUpdate(cart, k, cart[k].(quantity := q, subtotal := q * cart[k].price), Subtotal);
  }

  /** Removing a line that is in the cart splices out exactly that line,
      keeping the order of the others. */
  lemma {:induction false} RemoveSplices(cart: Cart, id: Id, k: nat)
    requires UniqueLines(cart) && k < |cart| && cart[k].id == id
    ensures RemoveFromCart(cart, id) == cart[..k] + cart[k+1..]
  {
    forall i | 0 <= i < |cart| && i != k ensures OtherLine(id)(cart[i]) {
      assert cart[i].id != cart[k].id;
    }
    Seqs.FilterDropOne(cart, OtherLine(id), k);
  }

  /** The per-line invariants hold of any lines taken from a valid cart. */
  lemma {:induction false} LinesFromValid(cart: Cart, r: Cart, snapshot: seq<Row<Medicine>>)
    requires ValidCart(cart, snapshot)
    requires forall i :: 0 <= i < |r| ==> r[i] in cart
    ensures forall i :: 0 <= i < |r| ==> r[i].subtotal == r[i].quantity * r[i].price
    ensures forall i :: 0 <= i < |r| ==> 1 <= r[i].quantity <= r[i].maxStock
    ensures forall i :: 0 <= i < |r| ==> Stocked(r[i], snapshot)
  {
    forall i | 0 <= i < |r|
      ensures r[i].subtotal == r[i].quantity * r[i].price
      ensures 1 <= r[i].quantity <= r[i].maxStock
      ensures Stocked(r[i], snapshot)
    {
      var k :| 0 <= k < |cart| && cart[k] == r[i];
    }
  }

  /** Splicing out one line keeps the ids distinct. */
  lemma {:induction false} SpliceUnique(cart: Cart, k: nat)
    requires UniqueLines(cart) && k < |cart|
    ensures UniqueLines(cart[..k] + cart[k+1..])
  {
    var r := cart[..k] + cart[k+1..];
    forall i, j | 0 <= i < j < |r| ensures r[i].id != r[j].id {
      var i' := if i < k then i else i + 1;
      var j' := if j < k then j else j + 1;
      assert r[i] == cart[i'] && r[j] == cart[j'] && i' < j';
    }
  }

  /** Removing a line keeps the cart invariants; removing an id that has no
      line changes nothing. */
  lemma {:induction false} RemoveKeepsValid(cart: Cart, snapshot: seq<Row<Medicine>>, id: Id)
    requires ValidCart(cart, snapshot)
    ensures ValidCart(RemoveFromCart(cart, id), snapshot)
    ensures FindLine(cart, id).None? ==> RemoveFromCart(cart, id) == cart
  {
    var r := RemoveFromCart(cart, id);
    LinesFromValid(cart, r, snapshot);
    if FindLine(cart, id).Some? {
      var k := LineAt(cart, id);
      RemoveSplices(cart, id, k);
      SpliceUnique(cart, k);
    } else {
      Seqs.FilterAll(cart, OtherLine(id));
    }
  }

  /** Removing a line takes its subtotal off the total. */
  lemma {:induction false} RemoveTotal(cart: Cart, snapshot: seq<Row<Medicine>>, id: Id)
    requires ValidCart(cart, snapshot) && FindLine(cart, id).Some?
    ensures Total(RemoveFromCart(cart, id)) == Total(cart) - FindLine(cart, id).value.subtotal
  {
    var k := LineAt(cart, id);
    RemoveSplices(cart, id, k);
    Seqs.SumDrop(cart, k, Subtotal);
  }
}
