# Mypharma bookkeeping, modelled in Dafny

Mypharma is a pharmacy record-keeping application. It has an Express/SQLite
backend and a React frontend. This project models its bookkeeping: stock,
customer purchase and credit balances, and sales, kept in tables scoped to
the owning account. Each route handler and each page handler is a pure
function from (tables, input) to (tables', reply). Each listing and report
is a fold, filter or sort over the caller's rows.

Money is an integer number of RWF minor units. A calendar date is an integer
day number. A table is a sequence of rows `(id, owner, data)` in insertion
order, which stands in for the `created_at` order. SQL NULL is `None`.

Modules, leaf to root:

- `Base`, `Seqs`, `Text`, `Groups`: options, replies and JSON numeric
  fields; sums, filters and sorts over sequences; ASCII lower-casing,
  substring search, number printing and joining; grouping by a key.
- `Tables`, `Schema`: account-scoped tables with `INSERT`, `UPDATE` and
  `DELETE ... WHERE id = ? AND user_id = ?`, and the columns of the
  `inventory`, `customers` and `sales` tables.
- `CustomerRoutes`, `InventoryRoutes`, `SaleRoutes`, `Reports`: the backend
  routes.
- `Cart`, `SalesPage`: the cart and the checkout of the sales page.
- `InventoryView`, `CustomersView`, `Settings`: the inventory page, the
  customers page and the credit section of the settings page.

The model follows the code, not an idealised design of it:

- The sale total is computed by the page and trusted by `POST /sales`.
- A sale is three independent kinds of request: create the customer, post
  the sale, write back each line's stock. A failing request stops the
  sequence, and what was already written stays written.
- Deleting a sale restores no stock and reverses no balance.
- Validation failures answer 400 with the route's message. There is no 409
  and no rejection of duplicate lines on the server.
- The payment method is free text. Only the exact text "Credit" adds to
  the customer's credit.

## Model

| member | source | states |
|---|---|---|
| Tables.Insert | backend/routes/customers.js:32-35 | an INSERT appends the row, and fails, writing nothing, exactly when its id is already taken; the primary key is kept |
| Tables.Modify | backend/routes/customers.js:63-67 | an UPDATE rewrites exactly the rows with that id and account, in place; it reports no change exactly when no row matches, and at most one under the primary key |
| Tables.Delete | backend/routes/customers.js:86-88 | a DELETE keeps exactly the rows that do not match and reports how many it dropped, none exactly when nothing matches |
| Tables.Owned | backend/routes/reports.js:12-14 | `WHERE user_id = ?` keeps the caller's rows and only them, in table order |
| Tables.OwnedCount | backend/routes/reports.js:12-14 | each of the caller's rows comes back as often as it is stored, and no other row comes back |
| Tables.LookupInsert | backend/routes/customers.js:32-35 | after an insert the new key reads as the new row and every other key reads as before |
| Tables.LookupModify | backend/routes/customers.js:63-67 | after an update the key reads as the changed data and every other key reads as before |
| Tables.LookupDelete | backend/routes/customers.js:86-88 | after a delete the key reads as missing and every other key reads as before |
| Tables.ModifyIsolated | backend/routes/inventory.js:61-65 | an update scoped to one account leaves every other account's rows exactly as they were |
| Tables.DeleteIsolated | backend/routes/inventory.js:84-86 | a delete scoped to one account leaves every other account's rows exactly as they were |
| Tables.InsertIsolated | backend/routes/inventory.js:31-34 | a row inserted for one account is invisible to every other account |
| Tables.DeleteUnique | backend/routes/sales.js:79-81 | under the primary key, deleting a matched row splices out exactly that row and keeps the order of the others |
| Tables.DeleteKeepsOrder | backend/routes/sales.js:79-81 | a delete keeps the remaining rows in their relative order |
| CustomerRoutes.Create | backend/routes/customers.js:22-56 | 400 unless name and phone are non-empty; a new customer has credit 0, purchases 0, prescriptions 0, last visit today and the email or ""; it is readable under its id and the caller has one more customer |
| CustomerRoutes.Update | backend/routes/customers.js:58-80 | 404 when the caller has no such row; 500 with nothing written when name or phone is missing; otherwise exactly name, phone, email and credit are replaced and every other customer is unchanged |
| CustomerRoutes.Remove | backend/routes/customers.js:82-101 | succeeds exactly when the caller has the row, 404 otherwise; the row is gone and every other row reads as before |
| CustomerRoutes.WithCredit | backend/routes/customers.js:103-115 | exactly the caller's customers with credit above 0, each once, largest credit first |
| InventoryRoutes.Create | backend/routes/inventory.js:21-54 | 400 when any field is falsy, so a numeric stock or price of 0 is refused while the text "0" is not; otherwise the six fields are stored under the new id for the caller and nothing else changes |
| InventoryRoutes.Update | backend/routes/inventory.js:56-78 | 404 when nothing matches; 500 with nothing written when a column would be NULL; otherwise all six columns of that row take the body's values and every other row is unchanged |
| InventoryRoutes.Remove | backend/routes/inventory.js:80-99 | succeeds exactly when the caller has the row, 404 otherwise; only that row goes |
| InventoryRoutes.LowStock | backend/routes/inventory.js:101-115 | exactly the caller's medicines with stock strictly below the threshold (150 when none is given), lowest stock first |
| SaleRoutes.ChargeCustomer | backend/routes/sales.js:41-57 | the buyer's purchases grow by the total and the last visit becomes the sale date; credit grows by the total exactly for "Credit"; other columns and other customers are unchanged; an unknown buyer changes nothing |
| SaleRoutes.Create | backend/routes/sales.js:21-73 | 400 with nothing written when any field is falsy; otherwise the sale row with the supplied total and today's date is appended, the buyer is charged and the inventory is untouched |
| SaleRoutes.Remove | backend/routes/sales.js:75-94 | removes only the caller's matching sale, 404 when there is none; inventory and customers are untouched |
| SaleRoutes.Range | backend/routes/sales.js:96-114 | 400 unless both bounds are given; otherwise exactly the caller's sales dated from start to end inclusive, newest first |
| SaleRoutes.CreditIffCreditMethod | backend/routes/sales.js:49-57 | a non-NULL credit grows by exactly the total for "Credit" and stays otherwise; a non-zero total changes credit exactly when the method is "Credit" |
| Reports.GetStats | backend/routes/reports.js:7-84 | the sale and customer counts are the caller's row counts; revenue is 0 without sales; outstanding credit is never negative and is 0 exactly when no customer of the caller owes; products are non-negative when every stock is |
| Reports.StatsAfterSale | backend/routes/reports.js:12-29 | a recorded sale adds its total to the caller's revenue and one to the count, and changes neither the stock value nor any other account's revenue |
| Reports.StatsAfterSaleRemoved | backend/routes/reports.js:12-29 | deleting a sale takes its total off the revenue and one off the count, and leaves outstanding credit and stock value as they were |
| Reports.TopRows | backend/routes/reports.js:86-102 | ten of the caller's medicines, or all when fewer, by stock, highest first, each row at most as often as it is stored |
| Reports.TopMedicines | backend/routes/reports.js:86-102 | one summary per row of `TopRows`, in its order: at most ten, non-increasing in stock, each the summary of one of the caller's medicines |
| Reports.TopMedicinesAreTop | backend/routes/reports.js:88-93 | a medicine of the caller is left out only when ten are listed and the tenth has at least its stock |
| Reports.SalesByCategory | backend/routes/reports.js:104-120 | one row per category of the caller's inventory, none twice, each holding that category's row count and stock value, largest value first |
| Reports.CategoriesPartitionStock | backend/routes/reports.js:104-120 | the category counts add up to the caller's medicine count and the category totals add up to the stock value of the dashboard |
| Reports.RecentSales | backend/routes/reports.js:122-139 | the caller's sales by (date, created_at) newest first, `limit` of them (10 by default, all for a negative limit) or all when fewer, each sale at most once |
| Reports.RecentSalesAreNewest | backend/routes/reports.js:122-139 | a sale of the caller is left out only when the limit is reached and the last one listed is at least as recent |
| Cart.Snapshot | frontend/src/components/Sales.js:58 | the page offers the fetched medicines with stock above 0 and only them, in the order fetched |
| Cart.SnapshotCount | frontend/src/components/Sales.js:58 | each stocked medicine is offered as often as it was fetched, and no other row is offered |
| Cart.FindMedicine | frontend/src/components/Sales.js:70-71 | finds a snapshot row with the id exactly when there is one |
| Cart.FindLine | frontend/src/components/Sales.js:78 | finds a cart line with the id exactly when there is one |
| Cart.SetQuantityAt | frontend/src/components/Sales.js:119-123 | under unique ids, re-counting replaces exactly one line |
| Cart.AddToCart | frontend/src/components/Sales.js:64-105 | no selection is refused with "Please select a medicine"; an id not in the snapshot does nothing; every other refusal quotes the medicine's stock |
| Cart.AddAccepted | frontend/src/components/Sales.js:78-99 | an accepted add found the medicine within its stock, and either re-counted its existing line to the merged quantity or appended a new line |
| Cart.AddMergesOrAppends | frontend/src/components/Sales.js:73-99 | an add is refused exactly when the quantity or the merged quantity exceeds the stock; a medicine already in the cart keeps the number of lines and gets the merged quantity; a new one is appended |
| Cart.AddKeepsValid | frontend/src/components/Sales.js:78-99 | for a quantity of at least 1, adding keeps ids unique, `subtotal = quantity × price`, `1 ≤ quantity ≤ maxStock`, and every line backed by its snapshot row |
| Cart.AddTotal | frontend/src/components/Sales.js:126-128 | an accepted add raises the total by quantity × price |
| Cart.UpdateQuantity | frontend/src/components/Sales.js:111-124 | an unknown id does nothing; above `maxStock` it is refused with "Only n units available"; below 1 it does nothing; otherwise only that line takes the new quantity |
| Cart.UpdateKeepsValid | frontend/src/components/Sales.js:111-124 | re-counting keeps the cart invariants |
| Cart.UpdateTotal | frontend/src/components/Sales.js:119-128 | re-counting replaces the line's old quantity × price by the new one in the total |
| Cart.RemoveFromCart | frontend/src/components/Sales.js:107-109 | exactly the lines with other ids remain |
| Cart.RemoveSplices | frontend/src/components/Sales.js:107-109 | removing a line splices out exactly that line and keeps the order of the others |
| Cart.RemoveKeepsValid | frontend/src/components/Sales.js:107-109 | removing keeps the cart invariants, and removing an absent id changes nothing |
| Cart.RemoveTotal | frontend/src/components/Sales.js:107-128 | removing a line takes its subtotal off the total |
| SalesPage.ItemsString | frontend/src/components/Sales.js:164-166 | the items text is empty exactly for an empty cart |
| SalesPage.ItemsInCartOrder | frontend/src/components/Sales.js:164-166 | the items text is the "name (qty)" entries joined by ", " in cart order |
| SalesPage.StockBody | frontend/src/components/Sales.js:182-185 | the write-back body spreads the whole snapshot row, so it holds no NULL |
| SalesPage.CarriesSold | frontend/src/components/Sales.js:182-185 | the row written back is the snapshot row with the quantity taken off its stock |
| SalesPage.WriteOne | frontend/src/components/Sales.js:180-188 | one write-back succeeds exactly when the line has a snapshot row and the caller a row to write; it writes only that row and a failure writes nothing |
| SalesPage.WriteBack | frontend/src/components/Sales.js:180-188 | the loop never adds or removes rows and keeps the primary key |
| SalesPage.WriteBackSucceeds | frontend/src/components/Sales.js:180-188 | the loop completes exactly when every line is writable |
| SalesPage.WriteBackOthersUnchanged | frontend/src/components/Sales.js:180-188 | the loop changes no row but the lines' own rows of the caller |
| SalesPage.WriteBackWrites | frontend/src/components/Sales.js:180-188 | when every line is writable, each line's row ends as its snapshot row less the quantity |
| SalesPage.Submit | frontend/src/components/Sales.js:140-198 | no name or an empty cart is refused with its message and nothing written; a completed sale appends the sale row with the cart's items text and total; a failed sale `POST` keeps the new customer and changes nothing else; a failed write-back keeps the sale row, the buyer's charge and what the loop wrote before it stopped |
| SalesPage.WriteBackStops | frontend/src/components/Sales.js:180-188 | a failing loop stops at its first unwritable line; every earlier line was writable and the inventory is what those lines left |
| SalesPage.StoppedLinesWritten | frontend/src/components/Sales.js:180-188 | for distinct lines, each line written before the stop holds its snapshot row less the quantity |
| SalesPage.SaleFailureKeepsCustomer | frontend/src/components/Sales.js:153-177 | when the sale INSERT fails on a taken id, the customer created just before stays recorded with no sale and the inventory is untouched |
| SalesPage.EmptyPhoneFails | frontend/src/components/Sales.js:153-159 | an empty phone makes the customer POST fail, so the sale stops with "Name and phone are required" and nothing is written |
| SalesPage.CompletedWroteBack | frontend/src/components/Sales.js:168-188 | a completed sale ran the whole write-back loop over the inventory as it was before |
| SalesPage.StockNeverNegative | frontend/src/components/Sales.js:180-188 | for a valid cart, a completed sale leaves every line's stock at snapshot stock less the quantity, never below 0, and every other medicine unchanged |
| SalesPage.NewBuyerCharged | frontend/src/components/Sales.js:153-177 | a completed sale records a new customer whose purchases equal the cart total and whose credit is the total exactly for a credit sale |
| SalesPage.SearchSales | frontend/src/components/Sales.js:32-37 | the sales whose customer name contains the term, ignoring case, and only them, in list order |
| SalesPage.SearchSalesCount | frontend/src/components/Sales.js:32-37 | each matching sale is listed as often as it is in the list, and no other sale is listed |
| SalesPage.EmptySearchKeepsAll | frontend/src/components/Sales.js:32-37 | an empty term keeps every sale, in order |
| InventoryView.ExpiredIsExpiring | src/components/Inventory.js:78-89 | an expired medicine is also expiring within two months |
| InventoryView.ValidateExpiry | src/components/Inventory.js:91-106 | an expiry before now is refused as expired; one no later than the horizon as expiring within 2 months; any later one, or an unreadable date, passes |
| InventoryView.ValidIffBeyondHorizon | src/components/Inventory.js:91-106 | a date passes exactly when its day starts after the two-month horizon |
| InventoryView.Submit | src/components/Inventory.js:145-176 | an add with a refused expiry writes nothing and shows the message; an added medicine passed the check and is stored with its expiry; a failure writes nothing |
| InventoryView.AddedIsFresh | src/components/Inventory.js:149-169 | a medicine added through the form is neither expired nor expiring soon |
| InventoryView.EditIgnoresExpiry | src/components/Inventory.js:149-163 | an edit does not depend on the clock and saves exactly when the row exists and no column is left empty |
| InventoryView.ExpiryNote | src/components/Inventory.js:250-251 | "(EXPIRED)" exactly when expired, "(Expiring Soon)" exactly when within two months and not expired, nothing otherwise |
| InventoryView.NoteIffWarned | src/components/Inventory.js:234-252 | a row carries a note exactly when it carries the expiry warning |
| InventoryView.StockStyle | src/components/Inventory.js:242 | the stock cell is "stock-low" exactly when stock is below 150 |
| InventoryView.LowStyleIffListed | src/components/Inventory.js:242 | the low-stock style marks exactly the medicines the default low-stock listing returns |
| InventoryView.Search | src/components/Inventory.js:32-39 | exactly the items whose name, category or supplier contains the term, ignoring case |
| InventoryView.SearchInOrder | src/components/Inventory.js:32-39 | the search keeps list order, and an empty term keeps every item |
| CustomersView.Test | src/components/Customers.js:27-31 | a customer is kept when name or email contains the term ignoring case, or the phone contains it as typed; the callback throws exactly when name and phone fail and the email is NULL |
| CustomersView.Search | src/components/Customers.js:27-33 | the search fails exactly when some row throws, and otherwise keeps exactly the matching customers |
| CustomersView.SearchInOrder | src/components/Customers.js:27-33 | a successful search keeps list order, and an empty term keeps every customer |
| CustomersView.NewCustomerForm | src/components/Customers.js:50-58 | the add form starts empty with credit 0 |
| CustomersView.AddFormKeepsCredit | src/components/Customers.js:255-268 | in add mode no input changes the form's credit |
| CustomersView.NewFormCreditStaysZero | src/components/Customers.js:50-58 | the new-customer form's credit stays 0 whatever is typed |
| CustomersView.EditFormTakesCredit | src/components/Customers.js:109-114 | in edit mode the last credit typed is the one the form holds |
| CustomersView.Submit | src/components/Customers.js:85-107 | an added customer is stored as a new customer; an edit stores the form's credit and keeps the purchases; a failure writes nothing |
| Settings.Admit | src/components/settings.js:181-195 | a cancelled prompt is dismissed; an amount is accepted exactly when it is a number with 0 < amount ≤ credit, and then `credit − amount` is at least 0 and below the credit; the refusals carry their messages |
| Settings.PayCreditAsWritten | src/components/settings.js:181-211 | as written, a cancel or a refusal changes nothing and an accepted amount always ends in "Failed to record payment" with nothing written |
| Settings.PayCredit | src/components/settings.js:181-211 | with the full row sent, a repayment is recorded exactly when it was accepted and the customer exists; only that customer can change |
| Settings.PayCreditLowersOnlyCredit | src/components/settings.js:197-203 | a recorded repayment lowers that customer's credit by exactly the amount, keeps it at least 0 and changes nothing else about them |
| Settings.ClearCreditAsWritten | src/components/settings.js:213-228 | as written, a confirmed clearing always ends in "Failed to clear credit" with nothing written |
| Settings.ClearCredit | src/components/settings.js:213-228 | with the full row sent, a confirmed clearing of an existing customer sets their credit to 0 and changes no other customer |
| Settings.WriteCredit | src/components/settings.js:197-203 | the corrected PUT succeeds exactly when the customer exists, then holds the new credit and the listed row otherwise, and touches no other customer |
| Settings.TotalCreditIsOutstanding | src/components/settings.js:389 | the total above the credit list equals the outstanding credit of the dashboard and is never negative |
| Settings.SupplierPayload | src/components/settings.js:154-159 | the supplier body keeps the name and sends "" for a missing contact, phone or email |

## Left out

- Concurrency and lost updates between requests: every request is applied
  on its own, one after another.
- Floating-point money and formatting (`toFixed`, `toLocaleString`,
  `parseFloat`): amounts are integers. The prompt's text is modelled as
  already read, as a number or as not a number.
- `src/components/Reports.js`, `src/components/Dashboard.js`,
  `src/components/Layout.js`, `src/App.js` and `backend/server.js`: they
  render, export and wire up, and hold no bookkeeping rule.
- Authentication (`backend/routes/auth.js`, `src/components/Signup.js`):
  password hashing and tokens are library calls. The account is a
  parameter of every route.
- `backend/routes/categories.js` and `backend/routes/suppliers.js`: plain
  CRUD in the pattern of the customers and inventory routes. Only the
  supplier payload of the settings page is modelled.
- The `GET` list routes (`/customers`, `/inventory`, `/sales`): the pages'
  lists are taken as given, in the order received.
- `GET /reports/monthly-sales`: it groups by SQLite's `strftime` of the
  current date.
- Identifiers and dates from `Date.now()` and `new Date()`: fresh ids,
  today's day, the row's `created_at` and the browser clock are parameters.
- The page's loading flags, modals, success-message timers and refetches
  after a write: the model returns the tables a refetch would read.
- The frontend delete handlers: each is a confirmation followed by the
  modelled `DELETE` route.
- The fallback `'CUST' + Date.now()` in checkout: a successful
  `POST /customers` always returns the new customer's id, so the fallback
  never applies.
- Text.Lower: lower-cases ASCII letters only, not the full Unicode case
  mapping of `toLowerCase`.
- InventoryView.ValidateExpiry: the clock is two instants, now and the
  `setMonth(+2)` horizon. The calendar arithmetic of `setMonth` is not
  modelled. An empty or unreadable date is `None` and passes, as an invalid
  `Date` does.
- InventoryView.Submit: an emptied number field or an emptied expiry date
  of the form is read as a missing value, so the request is refused as
  NULL. SQLite would store the empty text instead. The form's `required`
  inputs keep both cases from being submitted.
- CustomersView.Submit: the credit input is typed as a number. An emptied
  credit field, sent as "", is not modelled.
- Reports.RecentSales: the `limit` query is a number or absent. Text that
  is not a number is not modelled.
- InventoryRoutes.LowStock: the `threshold` query is a whole number or
  absent. A fractional threshold is not modelled, nor is text that is not
  a number, for which SQLite compares every stock as less than the text
  and returns all the caller's medicines. The dashboard sends no threshold.
- Reports.GetStats: revenue, products sold and stock value are the folds
  `Revenue`, `Seqs.Sum` of stock and `StockValue`. How they move under a
  sale or a deletion is stated in `Reports.StatsAfterSale` and
  `Reports.StatsAfterSaleRemoved`, not in this contract.
- Cart.AddKeepsValid: requires a quantity of at least 1. The quantity field
  keeps any number `parseInt` reads (`parseInt(..) || 1`, Sales.js:351), so
  a typed negative quantity reaches the cart.
- Settings.PayCredit: its contract says which writes can happen. The new
  credit value is stated in `Settings.PayCreditLowersOnlyCredit`, under the
  condition that the listed row is the stored one.

## Findings

| source | as written | input that shows it | evidently intended | confidence | as-written member | corrected member |
|---|---|---|---|---|---|---|
| src/components/settings.js:199-203 | the repayment `PUT /customers/:id` sends only `credit`. The route binds the missing name, phone and email as NULL (backend/routes/customers.js:63-67), and name and phone are NOT NULL (backend/database.js:54-55) | a customer who owes 500 pays 200: the UPDATE fails with 500 and "Failed to record payment" shows, with the credit still 500 | the credit drops to 300 and the rest of the row is kept | high; not executed | Settings.PayCreditAsWritten | Settings.PayCredit |
| src/components/settings.js:216-220 | clearing sends only `credit: 0`, with the same NULL name and phone | confirming "Mark all credit as paid" for a customer who owes 500: the UPDATE fails and "Failed to clear credit" shows | the credit becomes 0 and the rest of the row is kept | high; not executed | Settings.ClearCreditAsWritten | Settings.ClearCredit |

One related observation is not a defect of the model. The sales page labels
the phone optional, but `POST /customers` answers 400 without a phone, so a
sale without a phone stops before anything is written
(`SalesPage.EmptyPhoneFails`).
