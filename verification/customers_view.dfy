/** The customers page (src/components/Customers.js): the search box and the
    add/edit form. */
module CustomersView {
  import opened Base
  import opened Tables
  import opened Schema
  import CustomerRoutes
  import Seqs
  import Text

  /** The search test: name or email contains the term ignoring case, or the
      phone contains it exactly. A row without an email matches only by name
      or phone. */
  predicate Matches(c: Customer, term: string)
  {
    || Text.ContainsIgnoreCase(c.name, term)
    || Text.Contains(c.phone, term)
    || (c.email.Some? && Text.ContainsIgnoreCase(c.email.value, term))
  }

  function Matching(term: string): Row<Customer> -> bool
  {
    (x: Row<Customer>) => Matches(x.data, term)
  }

  /** The filter callback reads the email only when name and phone fail,
      and `null.toLowerCase()` throws there. */
  predicate Throws(c: Customer, term: string)
  {
    !Text.ContainsIgnoreCase(c.name, term) && !Text.Contains(c.phone, term) && c.email.None?
  }

  /** The filter callback: `Some(keep)`, or `None` when it throws. */
  function Test(c: Customer, term: string): (r: Option<bool>)
    ensures r.None? <==> Throws(c, term)
    ensures r.Some? ==> (r.value <==> Matches(c, term))
  {
    if Text.ContainsIgnoreCase(c.name, term) then Some(true)
    else if Text.Contains(c.phone, term) then Some(true)
    else match c.email
      case None => None
      case Some(e) => Some(Text.ContainsIgnoreCase(e, term))
  }

  /** The customers the table shows for a search term, or `None` when the
      filter throws on some row. */
  function Search(customers: seq<Row<Customer>>, term: string): (r: Option<seq<Row<Customer>>>)
    ensures r.None? <==> exists i :: 0 <= i < |customers| && Throws(customers[i].data, term)
    ensures r.Some? ==> r.value == Seqs.Filter(customers, Matching(term))
  {
    if |customers| == 0 then Some([])
    else
      var tail := customers[1..];
      var rest := Search(tail, term);
      assert forall i :: 0 < i < |customers| ==> customers[i] == tail[i - 1];
      assert (exists i :: 0 <= i < |tail| && Throws(tail[i].data, term)) ==>
        exists i :: 0 <= i < |customers| && Throws(customers[i].data, term) by {
        if exists i :: 0 <= i < |tail| && Throws(tail[i].data, term) {
          var i :| 0 <= i < |tail| && Throws(tail[i].data, term);
          assert customers[i + 1] == tail[i];
        }
      }
      match Test(customers[0].data, term)
      case None => None
      case Some(keep) =>
        match rest
        case None => None
        case Some(kept) => Some(if keep then [customers[0]] + kept else kept)
  }

  /** Whenever the search succeeds it keeps the list order; an empty term
      never throws and keeps every customer. */
  lemma {:induction false} SearchInOrder(customers: seq<Row<Customer>>, term: string)
    ensures Search(customers, term).Some? ==> Seqs.SubsequenceOf(Search(customers, term).value, customers)
    ensures term == "" ==> Search(customers, term) == Some(customers)
  {
    Seqs.FilterSubsequence(customers, Matching(term));
    if term == "" {
      forall i | 0 <= i < |customers| ensures Matching(term)(customers[i]) && !Throws(customers[i].data, term) {
        Text.ContainsEmpty(Text.Lower(customers[i].data.name));
      }
      Seqs.FilterAll(customers, Matching(term));
    }
  }

  /** The add/edit form. `email` is `None` when an edited row's email is NULL. */
  datatype CustomerForm = CustomerForm(name: string, phone: string, email: Option<string>, credit: Option<Money>)

  /** `handleAddClick`: an empty form with credit 0. */
  function NewCustomerForm(): (f: CustomerForm)
    ensures f.name == "" && f.phone == "" && f.credit == Some(0)
  {
    CustomerForm("", "", Some(""), Some(0))
  }

  /** `handleEditClick`: the form holds the row as listed. */
  function EditForm(c: Customer): CustomerForm
  {
    CustomerForm(c.name, c.phone, c.email, c.credit)
  }

  /** One `handleInputChange` on one of the form's inputs. */
  datatype Input = SetName(text: string) | SetPhone(text: string) | SetEmail(text: string) | SetCredit(amount: Money)

  /** The credit input is rendered only in edit mode, so in add mode there is
      nothing to type a credit into. */
  predicate Shown(i: Input, editMode: bool)
  {
    !i.SetCredit? || editMode
  }

  function Apply(f: CustomerForm, editMode: bool, i: Input): CustomerForm
  {
    if !Shown(i, editMode) then f
    else match i
      case SetName(s) => f.(name := s)
      case SetPhone(s) => f.(phone := s)
      case SetEmail(s) => f.(email := Some(s))
      case SetCredit(v) => f.(credit := Some(v))
  }

  /** The form after a sequence of inputs, in order. */
  function ApplyAll(f: CustomerForm, editMode: bool, inputs: seq<Input>): CustomerForm
    decreases |inputs|
  {
    if |inputs| == 0 then f else ApplyAll(Apply(f, editMode, inputs[0]), editMode, inputs[1..])
  }

  /** Whatever is typed into the add form, its credit stays what it was. */
  lemma {:induction false} AddFormKeepsCredit(f: CustomerForm, inputs: seq<Input>)
    ensures ApplyAll(f, false, inputs).credit == f.credit
    decreases |inputs|
  {
    if |inputs| > 0 {
      AddFormKeepsCredit(Apply(f, false, inputs[0]), inputs[1..]);
    }
  }

  /** Starting from the new-customer form, the credit stays 0. */
  lemma {:induction false} NewFormCreditStaysZero(inputs: seq<Input>)
    ensures ApplyAll(NewCustomerForm(), false, inputs).credit == Some(0)
  {
    AddFormKeepsCredit(NewCustomerForm(), inputs);
  }

  /** In edit mode the last credit typed is the one the form holds. */
  lemma {:induction false} EditFormTakesCredit(f: CustomerForm, inputs: seq<Input>, v: Money)
    ensures ApplyAll(f, true, inputs + [SetCredit(v)]).credit == Some(v)
  {
    ApplyAllSnoc(f, true, inputs, SetCredit(v));
  }

  lemma {:induction false} ApplyAllSnoc(f: CustomerForm, editMode: bool, inputs: seq<Input>, i: Input)
    ensures ApplyAll(f, editMode, inputs + [i]) == Apply(ApplyAll(f, editMode, inputs), editMode, i)
    decreases |inputs|
  {
    if |inputs| == 0 {
      assert inputs + [i] == [i];
    } else {
      assert (inputs + [i])[1..] == inputs[1..] + [i];
      ApplyAllSnoc(Apply(f, editMode, inputs[0]), editMode, inputs[1..], i);
    }
  }

  datatype Notice = Failed(message: string) | Saved(message: string)

  /** `handleSubmit`: a new customer is posted under `newId` (the route turns
      a missing email into ""); an edit puts the whole form to `editId`. */
  function Submit(t: Table<Customer>, acct: Account, editMode: bool, f: CustomerForm, editId: Id,
                  today: Day, newId: Id): (r: (Table<Customer>, Notice))
    ensures !r.1.Saved? ==> r.0 == t
    ensures !editMode && r.1.Saved? ==>
      && r.1 == Saved("Customer added successfully")
      && Lookup(r.0, newId, acct).Some?
      && CustomerRoutes.IsNewCustomer(Lookup(r.0, newId, acct).value, f.name, f.phone, f.email.GetOr(""), today)
    ensures editMode && r.1.Saved? ==>
      && r.1 == Saved("Customer updated successfully")
      && Lookup(t, editId, acct).Some? && Lookup(r.0, editId, acct).Some?
      && Lookup(r.0, editId, acct).value.credit == f.credit
      && Lookup(r.0, editId, acct).value.totalPurchases == Lookup(t, editId, acct).value.totalPurchases
  {
    if !editMode then
      var (t', reply) := CustomerRoutes.Create(t, acct, f.name, f.phone, f.email.GetOr(""), today, newId);
      if reply.Failure? then (t, Failed(reply.error)) else (t', Saved("Customer added successfully"))
    else
      var body := CustomerRoutes.CustomerBody(Some(f.name), Some(f.phone), f.email, f.credit);
      var (t', reply) := CustomerRoutes.Update(t, acct, editId, body);
      if reply.Failure? then (t, Failed(reply.error)) else (t', Saved("Customer updated successfully"))
  }
}
