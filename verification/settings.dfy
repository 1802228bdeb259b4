/** The credit section of the settings page (src/components/settings.js):
    recording a repayment, clearing a balance, the outstanding total shown
    above the list, and the supplier form's payload. Each write is one
    `PUT /customers/:id` answered by `CustomerRoutes.Update`. */
module Settings {
  import opened Base
  import opened Tables
  import opened Schema
  import CustomerRoutes
  import Reports
  import Seqs
  import Text

  /** What `prompt` gives back, as `parseFloat` reads it: `Cancelled` is
      `null`; `Entered(None)` is text that is not a number. */
  datatype Prompt = Cancelled | Entered(amount: Option<Money>)

  /** What the page shows after a repayment or a clearing. `Unchanged` is a
      dismissed dialog; `Refused` is a validation message set before any
      request; `Failed` is the message of a rejected `PUT`. */
  datatype Notice = Unchanged | Refused(message: string) | Failed(message: string) | Recorded(message: string)

  const InvalidAmount := "Please enter a valid amount"
  const ExceedsBalance := "Amount cannot exceed credit balance"
  const PaymentFailed := "Failed to record payment"
  const ClearFailed := "Failed to clear credit"
  const Cleared := "Credit cleared successfully"

  /** The amount a repayment prompt admits: a number, positive, and no more
      than the balance shown. */
  function Admit(reply: Prompt, current: Money): (r: Result)
    ensures reply.Cancelled? <==> r == Dismissed
    ensures r.Accepted? <==> reply.Entered? && reply.amount.Some? && 0 < reply.amount.value <= current
    ensures r.Accepted? ==> r.amount == reply.amount.value
    ensures r.Accepted? ==> 0 <= current - r.amount < current
    ensures r.Rejected? && (reply.amount.None? || reply.amount.value <= 0) ==> r.message == InvalidAmount
    ensures r.Rejected? && reply.amount.Some? && reply.amount.value > 0 ==> r.message == ExceedsBalance
  {
    if reply.Cancelled? then Dismissed
    else if reply.amount.None? || reply.amount.value <= 0 then Rejected(InvalidAmount)
    else if reply.amount.value > current then Rejected(ExceedsBalance)
    else Accepted(reply.amount.value)
  }

  /** The three ways the prompt's answer is judged. */
  datatype Result = Dismissed | Rejected(message: string) | Accepted(amount: Money)

  /** The message shown after a recorded repayment. */
  function PaymentMessage(amount: Money): string
  {
    "Payment of RWF " + Text.IntToString(amount) + " recorded successfully"
  }

  /** The body the page sends for a repayment or a clearing: only `credit`.
      Name, phone and email are missing, so the route binds them as NULL:
      with no row the `PUT` answers 404, and with a row the NULL name breaks
      NOT NULL and it answers 500. */
  function CreditOnlyBody(credit: Money): (b: CustomerRoutes.CustomerBody)
    ensures b.name.None? && b.phone.None? && b.email.None? && b.credit == Some(credit)
  {
    CustomerRoutes.CustomerBody(None, None, None, Some(credit))
  }

  /** `handlePayCredit` as the page writes it. `current` is the balance shown
      in the list row. Its `PUT` never lands, so the table is left as it was
      and an admitted amount always ends in the failure message. */
  function PayCreditAsWritten(t: Table<Customer>, acct: Account, id: Id, current: Money, reply: Prompt): (r: (Table<Customer>, Notice))
    ensures reply.Cancelled? ==> r == (t, Unchanged)
    ensures Admit(reply, current).Rejected? ==> r == (t, Refused(Admit(reply, current).message))
    ensures r.0 == t
    ensures Admit(reply, current).Accepted? ==> r.1 == Failed(PaymentFailed)
  {
    match Admit(reply, current)
    case Dismissed => (t, Unchanged)
    case Rejected(message) => (t, Refused(message))
    case Accepted(amount) =>
      var (t', put) := CustomerRoutes.Update(t, acct, id, CreditOnlyBody(current - amount));
      if put.Failure? then (t', Failed(PaymentFailed)) else (t', Recorded(PaymentMessage(amount)))
  }

  /** The body that carries the listed customer's own name, phone and email
      along with the new credit, so that only the credit changes. */
  function FullRowBody(c: Customer, credit: Money): (b: CustomerRoutes.CustomerBody)
    ensures b.name == Some(c.name) && b.phone == Some(c.phone) && b.email == c.email && b.credit == Some(credit)
  {
    CustomerRoutes.CustomerBody(Some(c.name), Some(c.phone), c.email, Some(credit))
  }

  /** The caller's customer `id` exists and owes `credit`. */
  predicate HasCredit(t: Table<Customer>, id: Id, acct: Account, credit: Money)
  {
    Lookup(t, id, acct).Some? && Lookup(t, id, acct).value.credit == Some(credit)
  }

  /** The corrected `PUT` of a new balance: the full row `c` as listed with
      `credit` replaced. `ok` and `failed` are the page's two messages. */
  function WriteCredit(t: Table<Customer>, acct: Account, id: Id, c: Customer, credit: Money, ok: string, failed: string): (r: (Table<Customer>, Notice))
    ensures r.1 == Recorded(ok) || r.1 == Failed(failed)
    ensures r.1.Recorded? <==> AnyMatch(t, id, acct)
    ensures r.1.Recorded? ==> HasCredit(r.0, id, acct, credit)
    ensures r.1.Recorded? && Lookup(t, id, acct) == Some(c) ==> Lookup(r.0, id, acct) == Some(c.(credit := Some(credit)))
    ensures !r.1.Recorded? ==> r.0 == t
    ensures forall id2, acct2 :: (id2 != id || acct2 != acct) ==> Lookup(r.0, id2, acct2) == Lookup(t, id2, acct2)
  {
    var body := FullRowBody(c, credit);
    var put := CustomerRoutes.Update(t, acct, id, body);
    if put.1.Failure? then (t, Failed(failed))
    else
      assert CustomerRoutes.ReplacesColumns(Lookup(t, id, acct).value, Lookup(put.0, id, acct).value, body);
      (put.0, Recorded(ok))
  }

  /** `handlePayCredit` with the `PUT` carrying the full row `c` as listed. */
  function PayCredit(t: Table<Customer>, acct: Account, id: Id, c: Customer, current: Money, reply: Prompt): (r: (Table<Customer>, Notice))
    ensures reply.Cancelled? ==> r == (t, Unchanged)
    ensures Admit(reply, current).Rejected? ==> r == (t, Refused(Admit(reply, current).message))
    ensures r.1.Recorded? <==> Admit(reply, current).Accepted? && AnyMatch(t, id, acct)
    ensures !r.1.Recorded? ==> r.0 == t
    ensures forall id2, acct2 :: (id2 != id || acct2 != acct) ==> Lookup(r.0, id2, acct2) == Lookup(t, id2, acct2)
  {
    match Admit(reply, current)
    case Dismissed => (t, Unchanged)
    case Rejected(message) => (t, Refused(message))
    case Accepted(amount) =>
      WriteCredit(t, acct, id, c, current - amount, PaymentMessage(amount), PaymentFailed)
  }

  /** When the listed row is the stored row and its balance is the one shown,
      a recorded repayment lowers that customer's credit by exactly the
      amount, leaves it non-negative, and changes nothing else about them. */
  lemma {:induction false} PayCreditLowersOnlyCredit(t: Table<Customer>, acct: Account, id: Id, c: Customer, current: Money, reply: Prompt)
    requires Lookup(t, id, acct) == Some(c) && c.credit == Some(current)
    requires PayCredit(t, acct, id, c, current, reply).1.Recorded?
    ensures var amount := Admit(reply, current).amount;
      && 0 < amount <= current
      && Lookup(PayCredit(t, acct, id, c, current, reply).0, id, acct) == Some(c.(credit := Some(current - amount)))
  {
  }

  /** `handleClearCredit` as the page writes it; `confirmed` is the answer
      to `window.confirm`. It fails the same way and never writes. */
  function ClearCreditAsWritten(t: Table<Customer>, acct: Account, id: Id, confirmed: bool): (r: (Table<Customer>, Notice))
    ensures !confirmed ==> r == (t, Unchanged)
    ensures r.0 == t
    ensures confirmed ==> r.1 == Failed(ClearFailed)
  {
    if !confirmed then (t, Unchanged)
    else
      var (t', put) := CustomerRoutes.Update(t, acct, id, CreditOnlyBody(0));
      if put.Failure? then (t', Failed(ClearFailed)) else (t', Recorded(Cleared))
  }

  /** `handleClearCredit` with the `PUT` carrying the full row `c`. */
  function ClearCredit(t: Table<Customer>, acct: Account, id: Id, c: Customer, confirmed: bool): (r: (Table<Customer>, Notice))
    ensures !confirmed ==> r == (t, Unchanged)
    ensures r.1.Recorded? <==> confirmed && AnyMatch(t, id, acct)
    ensures r.1.Recorded? ==> HasCredit(r.0, id, acct, 0)
    ensures !r.1.Recorded? ==> r.0 == t
    ensures forall id2, acct2 :: (id2 != id || acct2 != acct) ==> Lookup(r.0, id2, acct2) == Lookup(t, id2, acct2)
  {
    if !confirmed then (t, Unchanged)
    else WriteCredit(t, acct, id, c, 0, Cleared, ClearFailed)
  }

  /** `totalCredit`: the credits of the listed customers added up, a NULL
      credit counting as 0 (`customer.credit || 0`). */
  function TotalCredit(listed: seq<Row<Customer>>): Money
  {
    Seqs.Sum(listed, Reports.Credit)
  }

  /** The total above the credit list is the outstanding credit of the
      dashboard: both add up the positive credits of the caller's
      customers, in whatever order. */
  lemma {:induction false} TotalCreditIsOutstanding(t: Table<Customer>, acct: Account)
    ensures TotalCredit(CustomerRoutes.WithCredit(t, acct)) == Reports.OutstandingCredit(t, acct)
    ensures TotalCredit(CustomerRoutes.WithCredit(t, acct)) >= 0
  {
    var listed := CustomerRoutes.WithCredit(t, acct);
    var p := (x: Row<Customer>) => x.owner == acct && CustomerRoutes.OwesCredit(x.data);
    Seqs.FilterCongruent(t, p, Reports.Owing(acct));
    Seqs.SumPermutation(listed, Seqs.Filter(t, Reports.Owing(acct)), Reports.Credit);
    assert forall i :: 0 <= i < |listed| ==> Reports.Credit(listed[i]) > 0;
    Seqs.SumNonNegative(listed, Reports.Credit);
  }

  /** The supplier form as the page holds it. The add form starts every
      field at "", so a missing field is a NULL column of the supplier row
      the edit form was opened with. */
  datatype SupplierForm = SupplierForm(name: string, contact: Option<string>, phone: Option<string>, email: Option<string>)

  /** The JSON body the supplier form sends. */
  datatype SupplierBody = SupplierBody(name: string, contact: string, phone: string, email: string)

  /** `x || ''` for a text field: a missing field is sent as "". */
  function OrEmpty(x: Option<string>): (r: string)
    ensures x.Some? ==> r == x.value
    ensures x.None? ==> r == ""
  {
    x.GetOr("")
  }

  /** `supplierData`: the name as typed, and the optional fields with "" for
      a missing one, so that the body holds no `undefined`. */
  function SupplierPayload(form: SupplierForm): (r: SupplierBody)
    ensures r.name == form.name
    ensures form.contact.None? ==> r.contact == ""
    ensures form.phone.None? ==> r.phone == ""
    ensures form.email.None? ==> r.email == ""
    ensures form.contact.Some? ==> r.contact == form.contact.value
    ensures form.phone.Some? ==> r.phone == form.phone.value
    ensures form.email.Some? ==> r.email == form.email.value
  {
    SupplierBody(form.name, OrEmpty(form.contact), OrEmpty(form.phone), OrEmpty(form.email))
  }
}
