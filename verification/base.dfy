/** Shared vocabulary of the pharmacy model: optional values, money, days,
    row identifiers, owning accounts, HTTP replies and JSON numeric fields. */
module Base {

  /** A value that may be absent: SQL NULL, an undefined JSON field, a
      `find` that matched nothing. */
  datatype Option<+T> = None | Some(value: T) {
    function GetOr(default: T): T {
      match this
      case Some(v) => v
      case None => default
    }
  }

  /** Amounts of money in Rwandan francs, as integer minor units. */
  type Money = int

  /** Calendar dates as day numbers; the store's 'YYYY-MM-DD' text compares
      in the same order as these numbers. */
  type Day = int

  /** Row identifiers ('MED…', 'CUST…', 'SALE…') and owning accounts (users.id). */
  type Id = string
  type Account = int

  const Created: int := 201
  const BadRequest: int := 400
  const NotFound: int := 404
  const ServerError: int := 500

  /** What a route handler sends back: a success code with a body, or an
      error code with the `error` message of the JSON reply. */
  datatype Reply<+T> = Success(code: int, body: T) | Failure(code: int, error: string)

  /** A numeric field of a JSON request body. `Number` is a JSON number,
      `Numeric` is a non-empty text holding a number (what `toFixed` and form
      inputs produce); `Absent` covers a missing field, `null` and `""`. */
  datatype Num = Absent | Number(v: int) | Numeric(v: int) {
    /** JavaScript falsiness: only a missing value and the number 0 are falsy;
        any non-empty text, "0" and "0.00" included, is truthy. */
    predicate Falsy() {
      Absent? || (Number? && v == 0)
    }

    /** The value SQLite stores for the field (text is converted by the
        column's numeric affinity); `None` is NULL. */
    function Stored(): Option<int> {
      if Absent? then None else Some(v)
    }
  }
}
