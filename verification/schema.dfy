/** The columns of the three account-scoped tables the core touches
    (backend/database.js), and the store that holds them. */
module Schema {
  import opened Base
  import opened Tables

  /** A row of `inventory`; every column is NOT NULL. */
  datatype Medicine = Medicine(
    name: string,
    category: string,
    stock: int,
    price: Money,
    expiry: Day,
    supplier: string)

  /** A row of `customers`. `name` and `phone` are NOT NULL; `email` and
      `credit` may be NULL. `total_purchases`, `prescriptions` and
      `last_visit` are set when the row is inserted and never written NULL. */
  datatype Customer = Customer(
    name: string,
    phone: string,
    email: Option<string>,
    credit: Option<Money>,
    totalPurchases: Money,
    prescriptions: int,
    lastVisit: Day)

  /** A row of `sales`; `createdAt` is the insertion timestamp used as the
      secondary sort key of the sale listings. */
  datatype Sale = Sale(
    customerId: Id,
    customerName: string,
    items: string,
    total: Money,
    paymentMethod: string,
    date: Day,
    createdAt: int)

  datatype Db = Db(
    inventory: Table<Medicine>,
    customers: Table<Customer>,
    sales: Table<Sale>)

  /** The primary key holds on every table. */
  predicate WellFormed(db: Db)
  {
    UniqueIds(db.inventory) && UniqueIds(db.customers) && UniqueIds(db.sales)
  }
}
